# Packet forwarding: a Dafny model

This project models the forwarding data structures and algorithms of the `bfclick/ip` elements and of the
simulators beside them, and proves what they promise. Each module follows one source file or one component of it;
where the source updates its state step by step, so do the classes, methods and loops here.

One specification is shared by all routing tables: a finite map from canonical prefix to gateway and port, and the
longest prefix of the map that covers an address (`Prefixes.dfy`, `Forwarding.dfy`). Against it stand

- `DirectIPLookup`, the two-level DIR-24-8 table with its pool of reference-counted next hops (`DirectTables.dfy`,
  `VportPool.dfy`, `RouteViews.dfy`, `DirectLookup.dfy`, `DirectGrowth.dfy`), with runs that go wrong
  (`DirectFaults.dfy`, `ManyRoutes.dfy`);
- `RangeIPLookup`, which flattens those tables into ranges (`RangeLookup.dfy`, `RangeFaults.dfy`);
- `RadixIPLookup`, a trie whose slots are overwritten by priority (`RadixTrie.dfy`, `RadixLookup.dfy`), and what
  becomes of its default route (`RadixFaults.dfy`, `RadixLinks.dfy`);
- `LinearIPLookup` with its skip pointers and `SortedIPLookup` with its topological sort (`LinearLookup.dfy`,
  `SortedLookup.dfy`);
- batches of commands with rollback, on any of four of these tables (`RouteCommands.dfy`, `RouteTables.dfy`,
  `RouteUndo.dfy`, `RouteBatch.dfy`, `RouteFaults.dfy`);
- the prefix-splitting program and the Bloom-filter forwarder (`Overlap.dfy`, `BloomFilter.dfy`,
  `BloomForwarding.dfy`).

The protocol elements are IP fragmentation and reassembly (`Packets.dfy`, `Fragmenter.dfy`, `Chunks.dfy`,
`ReassemblyQueue.dfy`, `Reassembler.dfy`, `RoundTrip.dfy`; section 3.2 of RFC 791), header compression and
decompression in step (`HeaderCodec.dfy`, `HeaderCompression.dfy`; RFC 2507), and address translation with its
incremental checksums (`NatPattern.dfy`, `NatTable.dfy`, `NatFaults.dfy`, `Checksums.dfy`; section 3 of RFC 1624). The rest is
arithmetic: the compilation of masked comparisons into equality tests (`Bits.dfy`, `IPFilter.dfy`), the search tree
laid out in an array (`JvTree.dfy`), and all-pairs shortest paths in place (`ShortestPaths.dfy`).

## Where the code falls short of its promise

Each of these is the code's own behaviour, kept as it is, with the condition under which it shows.

- **DIR-24-8, default route.** Setting or removing the default changes vport 0 for every route that shares it
  (`AddDefault`, `DefaultDragsAlong`).
- **DIR-24-8, pruning.** Removal frees a block whose entries have equal lengths, even if they are different routes
  longer than /24, in exactly those /24s that it is not made to skip (`RemoveRoute`, `RemovalCollapses`). The table
  then answers right if and only if the routes of each have one hop (`RightAfterRemoval`).
- **DIR-24-8, full pool.** A replacement that finds no free vport has already dropped the old one's count. That
  happens exactly when all are in use, none for the new hop, and its own is shared (`NoRoomForOld`, `ExhaustedIsLacks`).
  The batch it is in is then undone with one route not counted, and all routes but at most one come back. If no
  command before was about the route, all do when a route left alone shares its vport, and, no two vports having had
  the same next hop, exactly when the vport is not emptied and given away for good, as `Course` tells from the routes
  and commands (`LeftRestored`, `Rerouted`).
- **DIR-24-8, growing.** When the secondary tables are enlarged the lengths of their entries are copied to one place
  and read from another: they survive if and only if the new memory happens to hold them (`Enlarge`).
- **Batches, blank lines.** The handler never steps over a blank line, and so never ends if it reaches one
  (`HandlerEnds`).
- **Range table.** A range keeps 12 bits of its vport: the answers are those of the direct tables if and only if every
  vport keeps its hop modulo 4096 (`AnswersAsTables`, `WideVport`). The rebuild does not watch for the end of its
  array (`Expand`, `TooManyRanges`).
- **Radix trie, default route.** The entry of a default route is freed as soon as it is added, and the next route,
  accepted or refused, takes it if it is still the first free one (`AddRoute`, `DefaultLost`). Removing a default whose
  entry the key still names ties the free entries into a ring (`RemoveDefault`, `EntryShared`).
- **Linear table, address 0.0.0.0.** Dead slots look like 0.0.0.0/32 and can hide a live route from that one address
  (`LookupEntry`, `ZeroGetsLost`); removing 0.0.0.0/32 can "succeed" on a dead slot (`RemoveRoute`).
- **Filter.** An equality with bits outside its mask loses them when its value is masked, and then no longer means
  what it said (`SetMask`, `EqualityShifted`).
- **Fragmenter.** A packet padded beyond the length in its header is cut into one wrong fragment with MF set if and
  only if the header claims less than the first fragment holds, or just as much and nothing to follow (`Fragment`).
  Copying options ends if and only if there is no first one to be read (`CopyEnds`).
- **Reassembler.** Only a first fragment that opens its queue stamps it with the time; other queues carry time 0 and
  survive exactly until the next reaping (`MakeQueue`, `NoTimeNoSafety`, `KeptOrLost`).
- **Compression.** A repeated IP id, and a difference that overflows an `int`, are not read back (`FieldId`,
  `DiffRoundTrip`).
- **Address translation.** A sequential pattern that has given out its last variation starts one past its range and
  never tries variation 0 (`WalkFromPast`, `NeverTriedAgain`). A pattern without variations does not look whether the
  way back is taken, and one with variations may give a flow its own way back (`ApplyPattern`, `OntoItself`). Answers
  are looked up without ports, so one is found if and only if the mapping has none (`AnswersIffNoPorts`,
  `HiddenAnswer`). `run_timer` hands `clean_map` its interval, 7 200 000 jiffies, for a cut-off time: pairs are discarded
  if and only if both halves were last used before that jiffy (`RunTimer`, `DiscardedInUse`, `NeverDiscarded`).
- **Bloom filter.** The greatest random number would write one place past the table (`PositionInTable`).

## Model

| member | source | states |
|---|---|---|
| `Prefixes.LongestIsLongest` | bfclick/ip/iproutetable.hh:107-111 | The longest length at which an address is matched names its longest covering prefix: the two readings of "longest match" agree. |
| `Prefixes.ContainsRange` | prefix.h:55-61 | A canonical prefix covers exactly one aligned run of addresses. |
| `Forwarding.NextHopIsLongest` | BloomFilterTest.cc:195-206 | Looking lengths up from 32 down gives the route of the longest covering prefix. |
| `DirectTables.LookupTables.constructor` | bfclick/ip/directiplookup.cc:86-115 | After a flush every address resolves to vport 0, by 0.0.0.0/0. |
| `DirectTables.PrimarySkip` | bfclick/ip/directiplookup.cc:319 | Or-ing in the low ones skips to the last /24 of the longer prefix around it, no further. |
| `DirectTables.SecondarySkip` | bfclick/ip/directiplookup.cc:317 | The same inside a secondary block. |
| `DirectTables.Extent` | bfclick/ip/directiplookup.cc:218-237 | The loop bounds of the table walks name exactly the addresses the prefix covers. |
| `DirectTables.LandsUnskipped` | bfclick/ip/directiplookup.cc:428-482 | A walk that jumps as the entries let it comes to no /24 that a longer match of at most 24 bits, begun before it, reaches. |
| `DirectTables.LookupTables.AddWalk` | bfclick/ip/directiplookup.cc:299-364 | The walk, skips and block allocation included, takes the tables from answering by the old routes to answering by the new. |
| `DirectTables.LookupTables.AddFirst` | bfclick/ip/directiplookup.cc:331-347 | A /24 without a block gets one that copies its entry but for the addresses of the route; no block leaks and none is shared. |
| `DirectTables.LookupTables.EnsureBlock` | bfclick/ip/directiplookup.cc:243-265 | A block is at hand for a route exactly when the /24s with longer routes, its own with them, are no more than there are blocks. |
| `DirectGrowth.Enlarge` | bfclick/ip/directiplookup.cc:251-260 | When the secondary tables are enlarged the entries are kept, and their lengths if and only if the new memory happens to hold them already. |
| `DirectTables.LookupTables.DeepFits` | bfclick/ip/directiplookup.cc:243-265 | A /24 has a block if and only if some route longer than /24 lies in it, so there are never more of these than blocks. |
| `DirectTables.LookupTables.RemoveWalk` | bfclick/ip/directiplookup.cc:428-482 | The walk gives every address of the route back to the next longest one; it collapses exactly the /24s tiled by routes of one longer length that it is not made to skip, so the tables stay right if and only if every tiled one is skipped. |
| `DirectTables.LookupTables.Prune` | bfclick/ip/directiplookup.cc:461-472 | A block whose entries have one length is freed: right when no entry is longer than /24, and otherwise exactly the collapse that `bad` records. |
| `VportPools.VportPool.Find` | bfclick/ip/directiplookup.cc:133-156 | A live vport with the hop, or a free index; only when all are taken does it fail. |
| `VportPools.VportPool.Ref` | bfclick/ip/directiplookup.cc:283-296 | One more route on a vport: counts stay exactly the number of routes using each. |
| `VportPools.VportPool.Unref` | bfclick/ip/directiplookup.cc:159-178 | One route fewer; a vport with no route left is freed, and only then. |
| `DirectLookups.DirectTable.constructor` | bfclick/ip/directiplookup.cc:36-55 | The empty table is valid and routes nothing but the default, to the discard port. |
| `DirectLookups.DirectTable.LookupRoute` | bfclick/ip/directiplookup.cc:529-539 | The one- or two-step read gives the longest match of every address while no /24 is collapsed, and `Answer` always. |
| `DirectLookups.DirectTable.AnswersAllLongest` | bfclick/ip/directiplookup.cc:461-472 | All addresses are answered by their longest match if and only if each collapsed /24 had one hop over all its tiles. |
| `DirectLookups.DirectTable.AddRoute` | bfclick/ip/directiplookup.cc:191-365 | Adds or replaces exactly one route and keeps the tables valid; the old route is handed back; it fails for memory exactly when there is no vport or no block left for the route, and then a replaced route is no longer counted at its vport. |
| `DirectLookups.DirectTable.NoRoomForOld` | bfclick/ip/directiplookup.cc:216-241 | A replacement fails exactly when all vports are in use, none for the hop, and more than one route is at that of the route. |
| `DirectLookups.DirectTable.LoadIsHops` | bfclick/ip/directiplookup.cc:133-178 | While no two vports in use have the same next hop, as many are in use as there are next hops. |
| `DirectLookups.DirectTable.ExhaustedIsLacks` | bfclick/ip/directiplookup.cc:191-265 | Whether a route can be placed is then told by the routes alone. |
| `DirectLookups.DirectTable.AddDefault` | bfclick/ip/directiplookup.cc:205-213 | Setting the default reroutes all that share vport 0; it changes only the default if and only if nothing else shares it. |
| `DirectLookups.DirectTable.OnlyUser` | bfclick/ip/directiplookup.cc:159-178 | A vport that counts one use has one counted route, and one that counts more is shared by a route with the same next hop. |
| `DirectLookups.DirectTable.LetGo` | bfclick/ip/directiplookup.cc:217 | A route is no longer counted at its vport, which is freed if and only if no other counted route is at it; one not counted before has another at its vport go uncounted, or none if the vport is free. |
| `DirectLookups.DirectTable.Replace` | bfclick/ip/directiplookup.cc:216-364 | A replaced route changes alone among the counted ones; one that is not counted goes along when its freed vport is what is given; it fails if and only if every vport is in use, none for the hop, and its own is shared. |
| `DirectLookups.DirectTable.FindCover` | bfclick/ip/directiplookup.cc:415-425 | The route an address falls back to is the longest one strictly covering the removed one. |
| `DirectLookups.DirectTable.RemoveRoute` | bfclick/ip/directiplookup.cc:368-485 | Removes exactly the matching route; the tables stay right if and only if every /24 of it that is tiled by routes of one longer length is skipped. |
| `DirectLookups.DirectTable.ValidAfterRemoval` | bfclick/ip/directiplookup.cc:461-472 | After a removal the tables are right if and only if every tiled /24 of the prefix was skipped. |
| `DirectLookups.DirectTable.RemoveOther` | bfclick/ip/directiplookup.cc:395-483 | The same of a removal while some route is not counted at its vport: exactly the matching route goes, with the vport if no counted one is left at it. |
| `RouteViews.AddedMoves` | bfclick/ip/directiplookup.cc:133-156 | Two vports in use keep different next hops when a route is added or replaced: a hop in use is found where it is. |
| `DirectLookups.DirectTable.RightAfterRemoval` | bfclick/ip/directiplookup.cc:461-472 | In terms of the routes alone: after a removal every address is answered right if and only if each such /24 not skipped has one next hop. |
| `DirectFaults.DefaultDragsAlong` | bfclick/ip/directiplookup.cc:206-212 | A concrete run where replacing the default reroutes 10.0.0.0/8, which shares its vport. |
| `DirectFaults.RemovalCollapses` | bfclick/ip/directiplookup.cc:461-472 | A concrete run where removing 10.0.0.0/26 makes 10.0.0.200 be answered by the wrong /25. |
| `RouteBatches.RunCommand` | bfclick/ip/iproutetable.cc:169-203 | A command does what the interface says of it, or nothing, and says which of the reasons it had; what is saved undoes it, and takes up no more vports than the routes are worth. |
| `RouteBatches.RoomAgain` | bfclick/ip/iproutetable.cc:256-266 | There was a vport and a block for what a command changed, so there is when it is changed back. |
| `RouteBatches.Rollback` | bfclick/ip/iproutetable.cc:256-266 | While every route is counted at its vport, undoing the saved entries from the back never fails, and restores the first table of the trail. |
| `RouteUndo.Affords` | bfclick/ip/iproutetable.cc:256-266 | One route not counted, what an undone entry lets go of still pays for what it places: there is a vport at every step. |
| `RouteUndo.TrackSetBack` | bfclick/ip/directiplookup.cc:133-178 | Where the vport of the route not counted is, in use or among the free ones, is told by the next hops that lose their last route and the new ones that come. |
| `RouteUndo.Rollback` | bfclick/ip/iproutetable.cc:256-266 | Undoing with one route not counted brings all other routes back, and that one is where its vport has come to be. |
| `RouteBatches.SharerHolds` | bfclick/ip/iproutetable.cc:256-266 | A route left alone that shares the vport of the one not counted keeps its hop for it. |
| `RouteBatches.LeftRestored` | bfclick/ip/iproutetable.cc:256-266 | So after a replacement that found no vport all routes come back but at most one; if no command was about that one, all do exactly when its vport, followed through the routes of the batch, ends with its hop, and in any case when a route left alone shares it. |
| `RouteBatches.CtrlHandler` | bfclick/ip/iproutetable.cc:221-268 | All commands of a batch take effect, or the routes are exactly as before and a command had to fail; which one, and why, is told by the routes; a replacement that finds no vport asks for a full pool, a new hop and a shared vport, and leaves what `LeftRestored` says. |
| `RouteBatches.AlwaysSafe` | bfclick/ip/iproutetable.cc:221-268 | For the radix, linear and sorted tables this asks nothing of the batch; the DIR-24-8 table must stay right when a route is taken out. |
| `RouteBatches.FlatSafe` | bfclick/ip/iproutetable.cc:221-268 | Nor does it of a DIR-24-8 table and a batch without routes longer than /24. |
| `RouteCommands.HandlerEnds` | bfclick/ip/iproutetable.cc:228-252 | In a table that can place every route, the handler is done if and only if no blank line comes before a command that fails. |
| `RouteFaults.Rerouted` | bfclick/ip/iproutetable.cc:221-268 | A run of the handler on a full DIR-24-8 table: four commands, the last of which finds no vport; undone, they have left the route it was for with the next hop of another. |
| `RouteBatches.AddUndone` | bfclick/ip/iproutetable.hh:82-103 | What an addition or a replacement saves takes the new map back to the old. |
| `RouteTables.AddRoute` | bfclick/ip/iproutetable.hh:82-91 | Of the DIR-24-8, radix, linear and sorted tables alike: a route is added, replaced or refused as the interface says; only the DIR-24-8 table can lack memory, and exactly when the routes say so. |
| `RouteTables.RemoveRoute` | bfclick/ip/iproutetable.hh:93-103 | Exactly a matching route is removed and handed back. |
| `RangeLookups.RangeTable.Expand` | bfclick/ip/rangeiplookup.cc:154-207 | The ranges are those of the direct tables; they fit if and only if there are no more than `RANGES_MAX` of them. |
| `RangeLookups.RangeHasVport` | bfclick/ip/rangeiplookup.cc:154-207 | Every address between the starts of two ranges has the vport of the first. |
| `RangeLookups.RangeTable.InBucket` | bfclick/ip/rangeiplookup.cc:160-201 | A bucket's entries are those that begin in it, and the first begins where it does. |
| `RangeLookups.RangeTable.Search` | bfclick/ip/rangeiplookup.cc:95-112 | The binary search ends at the last entry of the bucket that begins at or before the address, and reads none past the bucket. |
| `RangeLookups.RangeTable.LookupRoute` | bfclick/ip/rangeiplookup.cc:91-118 | The hop of the vport read modulo 4096: that of the direct tables if and only if the vport it turns into has the same hop, and then, with valid tables, the longest match; below 4096 nothing is lost. |
| `RangeLookups.RangeTable.AnswersAsTables` | bfclick/ip/rangeiplookup.cc:91-118 | Every address is answered as by the direct tables if and only if every vport in the ranges keeps its hop modulo 4096. |
| `RangeLookups.RangeTable.TooManyHops` | bfclick/ip/rangeiplookup.cc:91-118 | When more than 4096 hops are in use some address is answered wrongly. |
| `RangeLookups.RangeTable.AddRoute` | bfclick/ip/rangeiplookup.cc:128-134 | A successful update is followed by a rebuild that is in sync when it fits. |
| `RangeLookups.RangeTable.RemoveRoute` | bfclick/ip/rangeiplookup.cc:137-143 | A successful removal is followed by a rebuild too; the direct tables collapse just the /24s named, and are right as `ValidAfterRemoval` says. |
| `RangeFaults.WideVport` | bfclick/ip/rangeiplookup.cc:91-118 | A run: 4097 routes with hops of their own fit the ranges, and some address is answered wrongly. |
| `RangeFaults.TooManyRanges` | bfclick/ip/rangeiplookup.cc:154-207 | A run: every other /24 of 0x40002 with one next hop gives more ranges than there is room for. |
| `RadixLookups.KeyedAdd` | bfclick/ip/radixiplookup.cc:81-89 | Overwriting by priority leaves a slot holding the most specific route once the new one is counted in. |
| `RadixLookups.KeyedClear` | bfclick/ip/radixiplookup.cc:81-89 | A change with no index clears a covered slot of all that covers the prefix, and keeps what is more specific. |
| `RadixGeometry.SlotsCovered` | bfclick/ip/radixiplookup.cc:58-81 | The slots between `i1` and `i2` are exactly those whose addresses the prefix covers. |
| `RadixLookups.RadixTable.Change` | bfclick/ip/radixiplookup.cc:58-93 | The nodes down to the prefix's own are made, its covered slots are rewritten by priority, and no other slot. |
| `RadixLookups.RadixTable.Lookup` | bfclick/ip/radixiplookup.hh:129-140 | The last key met on the way down is that of the longest match. |
| `RadixLookups.RadixTable.LookupRoute` | bfclick/ip/radixiplookup.cc:207-217 | The route of the longest match; for want of one, what the default key names. |
| `RadixLookups.RadixTable.AddRoute` | bfclick/ip/radixiplookup.cc:129-173 | Adds or replaces exactly one route with a non-zero mask. Accepted or refused, it overwrites the first free entry and no other, so the default key goes on naming a default route if and only if that entry is not the one it names. |
| `RadixLookups.RadixTable.Link` | bfclick/ip/radixiplookup.cc:152-172 | The node's list gains the entry, or it takes the place of the one for the same prefix. |
| `RadixLookups.RadixTable.Clear` | bfclick/ip/radixiplookup.cc:176-187 | After the clearing change the slots of the prefix hold only routes that lie inside it. |
| `RadixLookups.RadixTable.RemoveStep` | bfclick/ip/radixiplookup.cc:189-201 | One entry of the list: the route itself goes, a route that covers it is offered to its slots again, others are left. |
| `RadixLookups.AllOffered` | bfclick/ip/radixiplookup.cc:188-203 | Once the whole list has been offered, every slot holds the most specific route left: what was cleared is restored. |
| `RadixLookups.RadixTable.RemoveRoute` | bfclick/ip/radixiplookup.cc:176-204 | Removes exactly the matching route, every slot again right for the routes left. |
| `RadixFaults.DefaultThenRoute` | bfclick/ip/radixiplookup.cc:147-167 | Adding a default and then any route leaves the default key naming that route. |
| `RadixFaults.DefaultLost` | bfclick/ip/radixiplookup.cc:147-167 | Outside that route nothing is answered, though the default was never removed. |
| `RadixFaults.RemovedStillAnswers` | bfclick/ip/radixiplookup.cc:147-167 | And once that route is removed its addresses are still answered with it. |
| `RadixFaults.AnsweredByDefault` | bfclick/ip/radixiplookup.cc:207-217 | With addresses that no route covers in both halves of the space, all of them are answered with a hop if and only if the default key names a default route to it. |
| `RadixFaults.AnsweredByAnother` | bfclick/ip/radixiplookup.cc:207-217 | An entry of another prefix answers for the default as well if and only if it covers all that no route covers. |
| `RadixLinks.Links.AddDefault` | bfclick/ip/radixiplookup.cc:129-172 | The entry of a default route ends at the head of the free entries, its key still naming it. |
| `RadixLinks.Links.RemoveDefault` | bfclick/ip/radixiplookup.cc:176-204 | Removing a default does something if and only if the chain from the default key has a match; the links of the free entries then have an end if and only if the first of the chain is not one. |
| `RadixLinks.DefaultLeads` | bfclick/ip/radixiplookup.cc:129-204 | In a table whose every entry is free or of a route, as all operations keep it, the default key leads to the rest of the free entries or of a list of routes other than the default. |
| `RadixLinks.ToFront` | bfclick/ip/radixiplookup.cc:190-196 | An entry unlinked from further down the free ones comes to their front, and the list is otherwise the same. |
| `RadixLinks.EntryShared` | bfclick/ip/radixiplookup.cc:129-204 | After a default is added and removed, the next two routes are given one entry. |
| `LinearLookups.LinearTable.AddRoute` | bfclick/ip/lineariplookup.cc:98-145 | Adds or replaces exactly one route, keeps the skip invariant, the index of prefixes and the remembered answers, and says what it replaced. |
| `LinearLookups.LinearTable.PatchBefore` | bfclick/ip/lineariplookup.cc:124-126 | Of the earlier slots, exactly those whose prefix contains the new one and that led past it now lead to it. |
| `LinearLookups.LinearTable.LeadOn` | bfclick/ip/lineariplookup.cc:127-131 | The new slot leads to the first live route it contains, or past the end. |
| `LinearLookups.PlacedSkips` | bfclick/ip/lineariplookup.cc:53-61 | With that, no live route strictly between a slot and its `extra` lies inside the slot's prefix. |
| `LinearLookups.LinearTable.RemoveRoute` | bfclick/ip/lineariplookup.cc:148-175 | Removes exactly a matching route; asked for 0.0.0.0/32 without a port when it is not there, it reports removing a dead slot. |
| `LinearLookups.LinearTable.MoveZero` | bfclick/ip/lineariplookup.cc:156-164 | The route of address 0 is kept before every dead slot, no route changed. |
| `LinearLookups.NothingSkipped` | bfclick/ip/lineariplookup.cc:178-189 | No route that covers the address and is skipped is as long as the one found first. |
| `LinearLookups.LinearTable.LookupEntry` | bfclick/ip/lineariplookup.cc:178-189 | The slot of the longest match, if and only if the scan does not stumble on a dead slot. |
| `LinearLookups.OthersDoNotStumble` | bfclick/ip/lineariplookup.cc:178-189 | No address but 0.0.0.0 can stumble. |
| `LinearLookups.LinearTable.LookupRoute` | bfclick/ip/lineariplookup.cc:192-200 | The answer is right if and only if the address does not stumble past a match; so for every address but 0.0.0.0. |
| `LinearLookups.ZeroGetsLost` | bfclick/ip/lineariplookup.cc:94-189 | A run: with 1.0.0.0/8 and 0.0.0.0/8 added and the first removed, address 0 is not answered by the second. |
| `LinearLookups.LinearTable.Push` | bfclick/ip/lineariplookup.cc:213-244 | Through its two remembered answers too, a packet goes by its longest match; a new answer is remembered as the last one. |
| `SortedLookups.CountDeps` | bfclick/ip/sortediplookup.cc:65-75 | `dep` counts the live routes inside each one's prefix. |
| `SortedLookups.TakenOff` | bfclick/ip/sortediplookup.cc:92-98 | Going over a placed route takes one off exactly what contains it, and what has none left joins the queue. |
| `SortedLookups.SomeFree` | bfclick/ip/sortediplookup.cc:82-85 | While a live route is missing some slot has count 0, because containment of distinct prefixes has no cycle. |
| `SortedLookups.NextFirst` | bfclick/ip/sortediplookup.cc:82-85 | So the assertion in the loop never fails, though `first` never goes back. |
| `SortedLookups.Order` | bfclick/ip/sortediplookup.cc:77-101 | The loop ends with every live route placed once, after all routes inside it; for a table sorted before, each in its own place. |
| `SortedLookups.PermutedIndexed` | bfclick/ip/sortediplookup.cc:103-111 | The permuted table holds exactly the same routes. |
| `SortedLookups.QueueLayers` | bfclick/ip/sortediplookup.cc:77-111 | The output of sorting is layered: sorting it again would visit it in order. |
| `SortedLookups.NextJoins` | bfclick/ip/sortediplookup.cc:92-98 | In a layered table the next route to join the queue is the next one of the table. |
| `SortedLookups.Sort` | bfclick/ip/sortediplookup.cc:59-115 | Same routes, live ones only, sorted; answers remembered by place stay right when the table was sorted before. |
| `SortedLookups.FirstIsBest` | bfclick/ip/sortediplookup.cc:142-149 | In a sorted table the first route to cover an address, 0.0.0.0 too, is its longest match. |
| `SortedLookups.SortedTable.AddRoute` | bfclick/ip/sortediplookup.cc:118-125 | Adds or replaces exactly one route; replacing moves nothing, so the remembered places need no clearing. |
| `SortedLookups.SortedTable.RemoveRoute` | bfclick/ip/sortediplookup.cc:128-135 | Removes exactly the matching route. |
| `SortedLookups.SortedTable.LookupEntry` | bfclick/ip/sortediplookup.cc:143-149 | First match is longest match for every address. |
| `SortedLookups.SortedTable.Push` | bfclick/ip/sortediplookup.cc:152-181 | Through its two remembered answers too, a packet goes by the longest match of its address; a new answer is remembered as the last one. |
| `Overlaps.HalvesCover` | overlap.cc:108-117 | The two halves cover exactly the addresses of the prefix, each address by one of them. |
| `Overlaps.SplitKeeps` | overlap.cc:107-122 | Replacing a prefix by the halves not yet there changes the next hop of no address. |
| `Overlaps.Splitter.Halve` | overlap.cc:107-122 | The same of the program's lists and its map, stale entries included. |
| `Overlaps.Splitter.Round` | overlap.cc:90-126 | A round leaves every route as it was and no prefix up to its length above another; prefixes that cover nothing stay. |
| `Overlaps.Splitter.SplitAll` | overlap.cc:90-126 | After round 31 no prefix contains another. |
| `Overlaps.Splitter.CheckOverlap` | overlap.cc:128-135 | The check reports an error if and only if a shorter prefix contains a longer one. |
| `Overlaps.Rewrite` | overlap.cc:90-144 | So the program reports none, and writes disjoint prefixes with the next hop of every address unchanged. |
| `BloomFilters.PositionInTable` | BloomFilter.h:80-80 | A position is in the table if and only if the random number is not the greatest one. |
| `BloomFilters.PositionFalls` | BloomFilter.h:80-80 | Cut into as many equal stretches as the table has places, the numbers up to the greatest fall on the place of their stretch. |
| `BloomFilters.BloomFilter.Insert` | BloomFilter.h:75-84 | The places hit are those of the addresses inserted, this one among them, and each place holds how often it has been hit, up to 2. |
| `BloomFilters.BloomFilter.Contains` | BloomFilter.h:103-118 | True if and only if every one of the eight numbers drawn for the address falls on a place that a number drawn for an address inserted falls on. |
| `BloomForwarding.ReadFib` | BloomFilterTest.cc:470-510 | Of two lines for one prefix the later counts, and the count for a next hop and length is that of its lines. |
| `BloomForwarding.Forwarder.Create` | BloomFilterTest.cc:85-106 | Each filter holds the addresses of the prefixes of its next hop and length, and no others; filters share nothing. |
| `BloomForwarding.Forwarder.Lookup` | BloomFilterTest.cc:273-293 | The next hop kept has the greatest hit length, and `error` is the number of next hops hit. |
| `BloomForwarding.LinearLookup` | BloomFilterTest.cc:195-206 | The next hop of the longest match, or 0 when there is none. |
| `BloomForwarding.Forwarder.AllLongestMatched` | BloomFilterTest.cc:104-106 | The next hop of the longest match is always hit, at its length. |
| `BloomForwarding.Verdict` | BloomFilterTest.cc:308-323 | A wrong next hop is never the only one hit, and comes of a false positive at or beyond the matching length. |
| `BloomForwarding.Forwarder.Sample` | BloomFilterTest.cc:272-326 | So the "lookup error" line is never printed; a sample is skipped if and only if its address has no longest match or one with next hop 0. |
| `ReassemblyChunks.MergedCovers` | bfclick/ip/ipreassembler.cc:303-323 | Merging a fragment into the chunk list adds exactly its bytes to what has arrived. |
| `ReassemblyChunks.PatchedThreads` | bfclick/ip/ipreassembler.cc:311-323 | The links patched into the holes thread the merged list, sorted, disjoint and 8 bytes apart. |
| `ReassemblyChunks.PatchedHolds` | bfclick/ip/ipreassembler.cc:311-323 | Patching the links overwrites no byte that has arrived. |
| `ReassemblyChunks.TakenIn` | bfclick/ip/ipreassembler.cc:122-131 | Taking a piece in keeps the whole invariant of the queue. |
| `ReassemblyQueues.PacketQueue.NextChunk` | bfclick/ip/ipreassembler.cc:214-220 | Following a link in the buffer gives the next chunk of the list. |
| `ReassemblyQueues.PacketQueue.Seek` | bfclick/ip/ipreassembler.cc:304-309 | The search stops at the first chunk that ends at the fragment's start or after it. |
| `ReassemblyQueues.PacketQueue.Absorb` | bfclick/ip/ipreassembler.cc:270-342 | The buffer then holds what it held and the fragment, in place; a piece past the end of a complete datagram is refused. |
| `ReassemblyQueues.PacketQueue.Complete` | bfclick/ip/ipreassembler.cc:343-346 | One chunk from 0 and no more fragments, exactly when every byte of the datagram has arrived. |
| `ReassemblyQueues.PacketQueue.Emit` | bfclick/ip/ipreassembler.cc:158-176 | What is emitted is the datagram that was cut. |
| `Reassemblers.Reassembler.FindQueue` | bfclick/ip/ipreassembler.cc:140-155 | The queue of the flow, or none if nothing of its datagram is there. |
| `Reassemblers.Reassembler.MakeQueue` | bfclick/ip/ipreassembler.cc:179-211 | The flow gains a queue with the fragment in it, charged for, and no other flow changes. |
| `Reassemblers.Reassembler.Receive` | bfclick/ip/ipreassembler.cc:260-353 | The datagram is emitted when all of its bytes have arrived and only then; memory is accounted exactly; other flows are untouched. |
| `Reassemblers.Reassembler.Reap` | bfclick/ip/ipreassembler.cc:382-403 | Exactly the queues with a timestamp more than 30 seconds old go. |
| `Reassemblers.Reassembler.ReapOverfull` | bfclick/ip/ipreassembler.cc:357-379 | While a queue over 10 seconds old is left no younger one has gone, nor over 5; only queues older than now go; the last to go brings memory down to the lower mark, or nothing older is left. |
| `Reassemblers.Reassembler.SimpleAction` | bfclick/ip/ipreassembler.cc:223-354 | Whole packets pass, malformed fragments are dropped, any other is taken in as above; while memory lasts, what there was of a datagram is gone if and only if a reaping was due and its queue more than 30 seconds old, and the next reaping is 10 seconds after; when memory is over the higher mark others are given up, the oldest first, until it is down to the lower or nothing older is left. |
| `Fragmenters.Fragmenter.Next` | bfclick/ip/ipfragmenter.cc:124-154 | Each further fragment carries as many multiples of 8 bytes as the MTU lets it, or what is left, has no options and the right MF bit, for an input that was a fragment too. |
| `Fragmenters.CopyEnds` | bfclick/ip/ipfragmenter.cc:62-74 | The loop that copies options ends if and only if there is no first option it can read, and then it has copied nothing. |
| `Fragmenters.NoOperationsNeverEnd` | bfclick/ip/ipfragmenter.cc:62-74 | With a header of no-operation options it never ends. |
| `Fragmenters.Fragmenter.Fragment` | bfclick/ip/ipfragmenter.cc:84-157 | What goes out are fragments that follow one another over the whole payload if and only if the header claims more than the first holds, or just as much with more to follow; else one packet goes out with MF set. Every fragment but the last is full. |
| `Fragmenters.HowMany` | bfclick/ip/ipfragmenter.cc:124-128 | There are as many fragments as it takes: one first, full ones, and a last. |
| `Fragmenters.Fragmenter.Push` | bfclick/ip/ipfragmenter.cc:160-166 | Small packets pass, refused ones are counted, the rest are cut as above. |
| `RoundTrips.PieceOfPiece` | bfclick/ip/ipfragmenter.cc:84-157 | A fragment of a piece of a datagram is a piece of that datagram. |
| `RoundTrips.FragmentsTile` | bfclick/ip/ipfragmenter.cc:118-154 | The fragments hold every byte of their packet exactly once. |
| `RoundTrips.CoveredIsEmitted` | bfclick/ip/ipreassembler.cc:223-354 | With duplicates and overlaps in any order: once every byte has come, the datagram has been emitted. |
| `RoundTrips.NothingElse` | bfclick/ip/ipreassembler.cc:223-354 | Nothing but the datagram is ever emitted, whenever its pieces arrive. |
| `RoundTrips.RunIsOutputs` | bfclick/ip/ipreassembler.cc:382-403 | While no reaping takes anything of the datagram the times of arrival do not matter. |
| `RoundTrips.EmittedOnce` | bfclick/ip/ipreassembler.cc:343-353 | Pieces that hold every byte once, in any order, bring the datagram with the last of them and not before. |
| `RoundTrips.AnyOrder` | bfclick/ip/ipfragmenter.cc:84-157 | The fragments of a datagram in any order are such pieces. |
| `RoundTrips.CutAgain` | bfclick/ip/ipfragmenter.cc:84-157 | So are fragments cut again, each to an MTU of its own. |
| `RoundTrips.KeptOrLost` | bfclick/ip/ipreassembler.cc:382-403 | Pieces that hold every byte once, in any order and at any times: the last brings the datagram if and only if no reaping took the queue the first opened; else none does. |
| `RoundTrips.SafeFor30Seconds` | bfclick/ip/ipreassembler.cc:382-403 | A queue with a time is safe for 30 seconds of it. |
| `RoundTrips.NoTimeNoSafety` | bfclick/ip/ipreassembler.cc:196-202 | A queue that no piece at offset 0 opened survives exactly until the next reaping. |
| `RoundTrips.Deliver` | bfclick/ip/ipreassembler.cc:223-354 | Over a run of pieces arriving at any times, reapings included, the outputs are exactly those of the specification, and other datagrams go only when they are due. |
| `RoundTrips.RoundTrip` | bfclick/ip/ipfragmenter.cc:84-166 | A datagram cut by the fragmenter and shuffled comes out of any reassembler, a fresh one too, once and equal to itself and leaves nothing behind, if and only if its queue outlives the reapings; its fragments bring nothing else. |
| `RoundTrips.InGoodTime` | bfclick/ip/ipreassembler.cc:382-403 | It does when they all come before the next reaping, or within 30 seconds of a first one at offset 0. |
| `IPFilters.Primitive.SetMask` | bfclick/ip/ipfilter.cc:208-256 | The normalised primitive says what the relation said, for every field value: always but for an equality with bits outside its mask, and for that never. |
| `IPFilters.EqualityShifted` | bfclick/ip/ipfilter.cc:249-254 | A masked equality survives the shift if and only if its value lies within the mask. |
| `IPFilters.Primitive.LowerBound` | bfclick/ip/ipfilter.cc:237-246 | Bringing the bound inside a mask with holes changes the comparison for no value. |
| `IPFilters.Always` | bfclick/ip/ipfilter.cc:218-226 | The bounds taken for always true or false are. |
| `IPFilters.NextTest` | bfclick/ip/ipfilter.cc:591-598 | The next test settles the comparison on the upper part of the mask or leaves it to the lower part, which is smaller. |
| `IPFilters.Primitive.AddTests` | bfclick/ip/ipfilter.cc:588-609 | The loop ends with at most 32 tests that together decide `x & mask > u`. |
| `IPFilters.Primitive.CloseTests` | bfclick/ip/ipfilter.cc:611-615 | Closing the subtrees from the innermost out nests the tests with the connectives recorded. |
| `IPFilters.Primitive.AddComparisonExprs` | bfclick/ip/ipfilter.cc:555-619 | Exactly one expression is added, and on every packet it says what the primitive says. |
| `IPFilters.CompileRelation` | bfclick/ip/ipfilter.cc:517-526 | Normalised and compiled, a relation on `field & mask` evaluates to itself on every packet, if and only if it is no equality with bits outside its mask. |
| `HeaderCompression.Compressor.EncodeX` | bfclick/ip/rfc2507c.cc:84-101 | The bytes appended are those of the difference (`DiffSends`), or the change is one that cannot be sent. |
| `HeaderCodec.DiffSends` | bfclick/ip/rfc2507c.cc:84-101 | A number is sent if and only if it has risen by less than 65536 or its difference overflows: no byte for no change, one for less than 256, a zero and two for more. |
| `HeaderCodec.WhatIsCompressed` | bfclick/ip/rfc2507c.cc:104-180 | A packet of unchanged shape is compressed if and only if each of its five numbers can be sent or the id is the next one; which bytes go out, in which order, and how many. |
| `HeaderCompression.Compressor.MakeCompressed` | bfclick/ip/rfc2507c.cc:104-180 | The message is that one, or the packet with a full header. |
| `HeaderCompression.Compressor.SimpleAction` | bfclick/ip/rfc2507c.cc:208-257 | A packet of a known flow is compressed, against a context of its own flow, whenever its shape and numbers let it be; a new flow takes its CID from the flow last seen with it, and no other flow gains or loses one. |
| `HeaderCodec.DiffRoundTrip` | bfclick/ip/rfc2507d.cc:32-63 | A difference is read back, whatever follows it, if and only if it did not overflow an `int`. |
| `HeaderCodec.FieldId` | bfclick/ip/rfc2507c.cc:156-164 | The IP id is read back if and only if it is not the last one again. |
| `HeaderCodec.Field32` | bfclick/ip/rfc2507d.cc:49-63 | A 32-bit field is read back if its difference does not overflow, and never otherwise. |
| `HeaderCodec.CompressExact` | bfclick/ip/rfc2507d.cc:93-145 | Decompressing a compressed packet gives the packet if and only if it is faithful to the context. |
| `HeaderCompression.Decompressor.SimpleAction` | bfclick/ip/rfc2507d.cc:67-145 | A full header replaces the context, a compressed one updates it, a bad CID changes nothing. |
| `HeaderCompression.Transmit` | bfclick/ip/rfc2507d.cc:67-145 | One packet across the link comes out as it went in if and only if it was sent whole or is faithful, and the ends stay in step. |
| `HeaderCompression.StaysInStep` | bfclick/ip/rfc2507c.cc:225-252 | After a packet that came out right every context in use agrees at both ends, reuse of CIDs included. |
| `HeaderCompression.TransmitAll` | bfclick/ip/rfc2507c.cc:208-257 | Over a whole run, whatever CIDs are reused, every packet comes out as it went in. |
| `JvTrees.RowSpot` | bfclick/ip/siphmapper.hh:62-69 | The node the inner loop reaches after `k` turns is the heap node at place `k` of its row. |
| `JvTrees.Splits` | bfclick/ip/siphmapper.hh:64-66 | A node holds one entry of its stretch of the array, and its children the parts before and after. |
| `JvTrees.LaysOut` | bfclick/ip/siphmapper.hh:45-70 | For every size the index formula lays the array out as a search tree. |
| `JvTrees.WalkIsArray` | bfclick/ip/siphmapper.hh:45-70 | The tree read in order is the array: every entry placed once. |
| `JvTrees.JvTree.Next2Pow` | bfclick/ip/siphmapper.hh:74-82 | The power of two just above the size. |
| `JvTrees.JvTree.constructor` | bfclick/ip/siphmapper.hh:45-70 | The loops fill the tree so that its in-order walk is the array given, sorted. |
| `JvTrees.JvTree.Search` | bfclick/ip/siphmapper.hh:87-106 | An entry of least key not below `k`; the root when every key is below. |
| `NatPatterns.OddReaches` | bfclick/ip/iprw.cc:355-373 | An odd step reaches every remainder of a power of two. |
| `NatPatterns.WalkVisits` | bfclick/ip/iprw.cc:355-373 | Started inside its range the walk visits every value of it. |
| `NatPatterns.WalkFromPast` | bfclick/ip/iprw.cc:355-373 | Started one past it, as a sequential pattern may be, it misses 0. |
| `NatPatterns.Pattern.FirstIsFree` | bfclick/ip/iprw.cc:355-373 | The variation taken is the first on the walk that is not in use. |
| `NatPatterns.Pattern.constructor` | bfclick/ip/iprw.cc:154-164 | The mask is the least such above the top, or 1. |
| `NatPatterns.Pattern.Choose` | bfclick/ip/iprw.cc:339-381 | What it gives has the fields the pattern sets, the flow's for the others, and an address or port of its range whose way back is not in the map; it fails if and only if each of the range, perhaps but for the first, is taken; it is the first free one of its walk. |
| `NatTables.SinceIsOrder` | bfclick/ip/iprw.hh:243-246 | Times less than half a wrap apart are told in order across a wrap of the jiffies. |
| `NatPatterns.Pattern.NextInTurn` | bfclick/ip/iprw.cc:355-373 | A sequential pattern gives the next free value in turn, from 0 again when there is none further on. |
| `NatTables.Rewriter.ApplyPattern` | bfclick/ip/ipaddrpairrewriter.cc:129-154 | The map stays a set of pairs, without variations if and only if the way back of the flow it gives is new, with them if and only if it does not give the flow its own way back, which it cannot unless the daddr is the saddr; it fails only when the pattern is exhausted. |
| `NatTables.Rewriter.ReplyReturns` | bfclick/ip/iprw.cc:85-91 | The mapping of a reply undoes the mapping of the packet. |
| `NatTables.Rewriter.NoCollision` | bfclick/ip/iprw.cc:85-91 | No two flows in the map share an outside flow or a mapping. |
| `NatTables.Rewriter.AnswersIffNoPorts` | bfclick/ip/iprw.cc:85-91 | The answer to a packet is rewritten by the packet's own mapping if and only if that has no ports. |
| `NatTables.Rewriter.Push` | bfclick/ip/ipaddrpairrewriter.cc:157-199 | A known flow goes by its mapping, a new one by its input, from an address in the range of its pattern; pairs are kept except in the one case stated. |
| `NatTables.Rewriter.Exchange` | bfclick/ip/ipaddrpairrewriter.cc:157-199 | A packet of a flow known or new, and its answer: the answer reaches the sender from the node asked if the mapping has no ports, and is by the packet's own mapping only then. |
| `NatTables.Rewriter.PortsStayOut` | bfclick/ip/iprw.cc:344-352 | A pattern that sets no port keeps outside flows without ports. |
| `NatTables.Rewriter.FreePair` | bfclick/ip/iprw.cc:538-550 | Both entries of a pair go, and the rest stay pairs. |
| `NatTables.Rewriter.CleanMap` | bfclick/ip/iprw.cc:592-607 | Exactly the pairs go that neither half of was used since, and no others. |
| `NatTables.Rewriter.RunTimer` | bfclick/ip/ipaddrpairrewriter.cc:122-126 | The cut-off is the interval itself: a pair goes if and only if both halves were last used before jiffy 7 200 000, up to half a wrap after it, whatever the time is. |
| `NatFaults.HiddenAnswer` | bfclick/ip/ipaddrpairrewriter.cc:157-199 | A run where a pattern with a port hides the answer to a packet. |
| `NatFaults.OntoItself` | bfclick/ip/ipaddrpairrewriter.cc:129-154 | A run where a pattern with variations gives a flow its own way back, and the pair is broken. |
| `NatFaults.NeverTriedAgain` | bfclick/ip/iprw.cc:355-373 | A run where a sequential pattern fails though its variation 0 is free. |
| `NatFaults.DiscardedInUse` | bfclick/ip/ipaddrpairrewriter.cc:122-126 | A run where a pair is discarded in the jiffy it was used in. |
| `NatFaults.NeverDiscarded` | bfclick/ip/ipaddrpairrewriter.cc:122-126 | A run where a pair used once is not discarded by any number of timers. |
| `Checksums.Deltas` | bfclick/ip/iprw.cc:66-82 | The deltas stand for the change of the addresses, and of addresses and ports, and never leave 16 bits. |
| `Checksums.TwiceIsEnough` | bfclick/ip/iprw.cc:73-82 | Two folds are enough for any such sum. |
| `Checksums.StillRight` | bfclick/ip/iprw.cc:105-107 | A right checksum stays right when the words it covers change as its delta says. |
| `Checksums.RewriteKeepsRight` | bfclick/ip/iprw.cc:94-107 | A rewritten header carries the new addresses, nothing else changed, and its checksum is right if it was. |
| `Checksums.ThereAndBack` | bfclick/ip/iprw.cc:54-107 | Rewriting and rewriting back restores the header up to the two forms of a zero checksum. |
| `ShortestPaths.RelaxDirect` | util.c:43-55 | A turn of the outer loop keeps every node already passed through optimal, and adds one. |
| `ShortestPaths.RelaxHop` | util.c:49-50 | The next hop stays a neighbour whose own remaining length fits. |
| `ShortestPaths.NoWalkShorter` | util.c:41-55 | At the end no walk over the links is shorter than the length stored. |
| `ShortestPaths.Record` | util.c:32-40 | Of several links for a pair the last one counts, both ways; empty slots are skipped. |
| `ShortestPaths.Pass` | util.c:43-55 | Though cells are overwritten in place, the pass computes what it would from the old matrix, within 32 bits. |
| `ShortestPaths.CalcShortestPath` | util.c:17-57 | Every length is the distance, or infinity if every walk is at least that long. |
| `ShortestPaths.NextArrives` | util.c:49-50 | With positive weights, following `next` arrives, by a walk of exactly the length stored. |

## Left out

- DirectLookups.DirectTable.AddRoute: the table keeps a fixed number of blocks; the branch that enlarges the secondary tables (directiplookup.cc:251-260) is modelled apart (`DirectGrowth`), since what the lengths are from then on the source does not say, and is taken as an allocation that fails.
- RadixLookups.RadixTable.RemoveRoute: the default route is removed in `RadixLinks` alone, on the entries and their links, because a successful removal leaves no list of free entries for the trie to go on with; `_nchildren` is left out.
- RouteBatches.CtrlHandler: a command on the default route of a DIR-24-8 or radix table, which does not keep to itself, is excluded, and so is a removal after which the DIR-24-8 table is no longer right; when an addition cannot be undone because its route has lost its vport to another (`stuck`), what the rest of the undoing does is not followed; the range table, whose rebuild may overrun its array, is not among the tables.
- RadixLinks.DefaultLeads: that the links string the free entries and the lists together (`Strings`) is stated, but not carried through the operations of the trie, whose lists are sequences.
- RangeLookups.RangeTable.Expand: where the original writes past a full range array the model stops and says so; the flush handler, which does not rebuild, is not modelled.
- DirectLookups.DirectTable.Place: when no block is left, what the claim of a vport has done to the free ones is stated only as far as it keeps the table valid.
- IPFilters.Primitive.SetMask: the shift by 32 at ipfilter.cc:244 is taken to give 0.
- IPFilters.Primitive.AddComparisonExprs: byte order and the `swapped` argument; the expression tree itself is `Classifier`'s and is modelled as AND, OR and NOT over tests; the interpreter in `push` is not modelled.
- Reassemblers.Reassembler.SimpleAction: fragments of one flow in the reassembler are taken to be of one datagram, packets pushed to the second output and failed allocations are left out, and the IP length it writes is 16 bits.
- Fragmenters.Fragmenter.Fragment: a packet whose options are never done with has no result.
- HeaderCompression.Decompressor.SimpleAction: where the original would read past the end of a packet there is no result; signed overflow is taken to wrap; the checksum function is a parameter and the TCP checksum is only carried.
- HeaderCompression.Compressor.SimpleAction: the choice of the CID to reuse is a parameter.
- JvTrees.JvTree.constructor: what `click_qsort` makes of the array is a parameter, and `chash_t`'s filling of it from random numbers is left out.
- NatPatterns.Pattern.constructor: a variation range of 2^31 or more, whose walk would not end, is excluded; `_nmappings` and the reference counts are left out.
- NatTables.Rewriter.CleanMap: the free-tracked variants, `take_state_map` and `append_to_free` are left out; a hash map is a map.
- NatTables.Rewriter.Push: of the address-pair rewriter, `IPMapper` inputs are left out.
- Checksums.RewriteKeepsRight: session flags, the UDP checksum that means "none" and the transport header's own fields beyond the checksum delta are left out.
- BloomForwarding.Forwarder.Create: floating-point filter sizes are a parameter, the array index of a filter is a pair of next hop and length, and positions are computed without rounding; prefixes of length 0, for which no filter is initialised, are excluded.
- Overlaps.Rewrite: a prefix of length 0, for which the program shifts by 32, is excluded; the order in which a set is gone through is arbitrary.
- ShortestPaths.CalcShortestPath: links have weights from 0 to 999999998 and join two different nodes.
- DirectLookups.DirectTable.LookupRoute: the caches of `DirectIPLookup::push` and `RangeIPLookup::push` are the packet annotations of Click and are left out.
- Hash chains, doubly linked vport lists and free lists of entries are maps and sequences; the chains inside the packet buffer are modelled byte by byte.
- Parsing, handlers, logging, timers and the other Click elements of the directory.
- Floating-point simulators (`lsfib.cc`), first-wins expansion (`flat.cc`, `ip2mac.cc`), counting-filter updates (`cbf.cc`), `old.cc` and the trace readers.
