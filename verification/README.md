# Models of MoonBank Core components

Four parts of the repository are modelled here, each in the form its source has, and proved against an
independent account of what it is for.

**The hash table** (`external/parallel_hashmap/phmap.h`, with the bit counters of `phmap_bits.h`).
`RawHashSet.Table` keeps the control bytes and the slots in arrays, with the sentinel, the cloned bytes and the
dummy bytes of small tables, for groups of 8 and of 16 control bytes. The map it stands for is a ghost field.
The soundness of a table (`Valid`) says: the control bytes have their layout; each key of the map is in exactly one
full slot; every probe window before an element's own has no empty byte; and full, deleted and still insertable
slots add up to the load limit. `Group.dfy` holds the 64-bit word arithmetic of the portable group, lane by lane;
`Probing.dfy` the arithmetic of triangular probing; `TableModel.dfy` and `TableStages.dfy` the invariants, also
those that hold in the middle of a rehash.

**The B-tree** (`external/parallel_hashmap/btree.h`). `Btree.BTree` keeps its nodes in a map from identities to
records that point at each other as in the source: `parent`, `position` and children. What a tree holds is its
in-order sequence (`BtreeModel.Values`), and every iterator has an index in it (`BtreeSearch.Mark`). Each structural
step is a split or a merge or one after the other (`BtreeShape.dfy`), and none changes the sequence or where any
other subtree begins in it. The levels of nodes are ghost. `BtreeSlots.Slots` has the same node operations on value
arrays, move by move; what they make of the values is what the tree writes into its records.

**The pool-update protocol** (`src/BlockchainExplorer/BlockchainExplorer.cpp`). `PoolUpdate.dfy` is a state machine
over any number of threads: one action for each atomic access, compare-and-exchange (which may fail spuriously),
lock operation, request and answer. The node answers each request exactly once, later, on an idle thread. History
variables record who is responsible for the open update, the refused notifications, the computed deltas, and which
of them the observers were told of or never will be.

**Chunked transfer coding** (`external/miniupnpc/miniwget.c`, `minihttptestserver.c`; section 4.1 of RFC 7230).
`ChunkedTransfer.Decoder` keeps what `getHTTPResponse` carries from one receive to the next. Its nested loops are
proved equal to a byte-by-byte automaton, and the automaton is proved against the grammar of bodies;
`ChunkedExtensions.dfy` deals with single size lines.

Findings, where the code does not do what one might expect of it:

- `rehash(0)`, and so `reserve(0)`, takes the capacity from the number of elements without the slack of the load
  factor. `RawHashSet.Table.Rehash` states exactly when the table is sound afterwards. Where it is not, insertions fill
  the remaining slots without any rehash, and once the last of them is full no search for an absent key ends
  (`RawHashSet.InsertAfterRehashZero`). For sizes of 2^k - 1 that is so at once (`RawHashSet.RehashZero`);
  `RawHashSet.RehashZeroUnsound` reaches such a table.
- `reserve(n)` on a table with deleted marks may leave less growth than `n` elements need. `RawHashSet.Table.Reserve`
  states exactly when, by the number of marks; `RawHashSet.ReserveFallsShort` reaches such a table.
- Of a chunk size the decoder keeps 31 digits, and of their value 32 bits. A chunk of five bytes whose size is written
  with 31 leading zeros, and one of 2^32 bytes, are taken for the end of the body (`ChunkedExtensions.ZerosMisread`,
  `ChunkedExtensions.WrapMisread`).
- The decoder collects digits wherever a segment begins, so a hexadecimal digit in a chunk extension can be taken for
  one of the size, or the last chunk for one with data, depending on how the network cuts the stream
  (`ChunkedExtensions.EndMisread`).
- `ChunkedExtensions.ReadsRightExact` states exactly which size lines are read right however they are cut: the number
  is below 2^32, its first 31 digits denote it, and what follows them is harmless. Of numbers with more than 31 digits
  only zero is read right. After exactly 31 digits any extension is harmless, because no digit is collected any more.
  After fewer digits most numbers admit no digit in the extension. Those whose last eight digits are all alike (zero is
  one) admit that digit, and others only in rows so long and so early that they are shifted out of the 32 bits again
  (`ChunkedExtensions.ShiftedOut`).
- A size of 2^31 or more is negative where it is compared with what the segment still holds: the copy then goes past
  the segment. `ChunkedTransfer.OverrunExact` and `ChunkedTransfer.OverrunStream` state exactly when;
  `ChunkedTransfer.OverrunInput` has the smallest size that does.
- The buffer of the test server's encoder has a margin for the framing that small chunks exceed.
  `ChunkedTransfer.FitsExact` states when the response fits; for all random numbers it does so up to 36 bytes of
  content (`ChunkedTransfer.AlwaysFits`).
- The known pool changes before the details of its new transactions are asked for. When that second request fails,
  the observers are never told of the change. `PoolUpdate.ObserversCurrent` states for which runs they have been told
  everything; `PoolUpdate.ObserversBehind` reaches a state where they are left behind.
- The end handler runs in a destructor. When the request of the re-run it starts throws, the program ends.
  `PoolUpdate.EndsProgram` states exactly which runs do that; `PoolUpdate.ProgramEnds` is one.

The comparator of the B-tree, the hash function, the random numbers of the encoder, the cutting of the stream and
the answers of the node are parameters. A machine word is written out where it can wrap: the growth counter of the
hash table (a negative value stands for the wrapped word), the chunk size, the 64-bit group words. Elsewhere
integers are unbounded.

## Model

| member | source | states |
|---|---|---|
| Bits.CountLeadingZeros32 | external/parallel_hashmap/phmap_bits.h:318-324 | the count `r` is 32 exactly for zero, and otherwise the value lies strictly between half of and the whole of the all-ones word shifted right by `r` |
| Bits.CountLeadingZeros64 | external/parallel_hashmap/phmap_bits.h:273-280 | the same for 64 bits |
| Bits.CountTrailingZerosNonZero64 | external/parallel_hashmap/phmap_bits.h:351-361 | the bit counted is the lowest one set: shifting it to the top leaves nothing else |
| Bits.CountTrailingZerosNonZero32 | external/parallel_hashmap/phmap_bits.h:385-394 | the same for 32 bits |
| Bits.NormalizeCapacity64 | external/parallel_hashmap/phmap.h:486-489 | on machine words the result is the least mask not below `n`, zero included |
| Group.CtrlNumbers | external/parallel_hashmap/phmap.h:225-250 | as signed bytes the special marks are -128, -2 and -1, and full bytes are not negative |
| Group.MatchEmptyExact | external/parallel_hashmap/phmap.h:423-426 | the word expression marks exactly the empty lanes, for all groups |
| Group.MatchEmptyOrDeletedExact | external/parallel_hashmap/phmap.h:428-431 | the word expression marks exactly the empty and deleted lanes |
| Group.MatchMask | external/parallel_hashmap/phmap.h:403-421 | every lane with the wanted hash is marked, no special byte ever is, and nothing is unless there is a true match |
| Group.Match | external/parallel_hashmap/phmap.h:403-421 | the lanes iterated over are full ones, include every lane with the wanted hash, and are none if there is no true match, for both widths |
| Group.ConvertBytes | external/parallel_hashmap/phmap.h:438-444 | the word expression converts each byte on its own |
| Group.ConvertStored | external/parallel_hashmap/phmap.h:438-444 | each byte that the portable group stores is the converted byte it loaded |
| Group.ConvertSpecialToEmptyAndFullToDeleted | external/parallel_hashmap/phmap.h:372-447 | full becomes deleted and everything else empty, whether the word is converted and stored (width 8) or the bytes are masked one by one (width 16) |
| Group.CountLeadingEmptyOrDeleted | external/parallel_hashmap/phmap.h:433-436 | the length of the longest prefix of empty and deleted lanes |
| Group.NonEmptyPrefix | external/parallel_hashmap/phmap.h:196-198 | `TrailingZeros` of `MatchEmpty`: the number of lanes before the first empty one |
| Group.NonEmptySuffix | external/parallel_hashmap/phmap.h:200-204 | `LeadingZeros` of `MatchEmpty`: the number of lanes after the last empty one |
| Group.FirstEmptyOrDeleted | external/parallel_hashmap/phmap.h:184-186 | `LowestBitSet` of `MatchEmptyOrDeleted`: the first free lane |
| Group.ClearLowest | external/parallel_hashmap/phmap.h:178-181 | incrementing the mask iterator removes exactly the lowest lane |
| Group.SetLanes | external/parallel_hashmap/phmap.h:165-215 | iterating a mask yields exactly its lanes |
| Capacity.NormalizeCapacityLeast | external/parallel_hashmap/phmap.h:486-489 | no smaller valid capacity holds `n` |
| Capacity.NormalizeCapacityWord | external/parallel_hashmap/phmap.h:486-489 | the machine word computed with the bit counter stands for the number the table uses |
| Capacity.GrowthLeavesRoom | external/parallel_hashmap/phmap.h:495-507 | the load limit is positive, and uses the whole capacity exactly in small tables |
| Capacity.LoadLimit | external/parallel_hashmap/phmap.h:495-506 | from capacity 15 on one position in eight stays free; the limits at 1, 3 and 7 for both widths |
| Capacity.GrowBound | external/parallel_hashmap/phmap.h:1888-1898 | growing when more than half of the load limit is in use leaves at most 32 slots to seven elements |
| Capacity.GrowthFits | external/parallel_hashmap/phmap.h:513-524 | a capacity admits `growth` elements if and only if it is at least the lower bound computed for them, for both widths and all values |
| Capacity.ReserveCapacityLeast | external/parallel_hashmap/phmap.h:1523 | the capacity reserved is the smallest valid one whose load limit is at least the number asked for |
| Probing.Next | external/parallel_hashmap/phmap.h:92-96 | one step of the probe sequence |
| Probing.ProbeOffsetClosed | external/parallel_hashmap/phmap.h:748-757 | after `j` steps the offset is the `j`-th triangular number of groups further on, up to full turns |
| Probing.TriangularOnto | external/parallel_hashmap/phmap.h:748-757 | modulo a power of two every residue is that of a triangular number |
| Probing.TriangularInjective | external/parallel_hashmap/phmap.h:748-757 | and of only one with a smaller index |
| Probing.WindowsCover | external/parallel_hashmap/phmap.h:756-757 | from any start every position lies in one of the first N windows |
| Probing.WindowsDisjoint | external/parallel_hashmap/phmap.h:756-757 | and in no two of them |
| Probing.SameProbeIndex | external/parallel_hashmap/phmap.h:1855-1866 | positions with the same `probe_index` lie in the same window, so an element that stays is where a search looks |
| TableModel.SetCtrlLayout | external/parallel_hashmap/phmap.h:2038-2050 | writing a control byte and its clone keeps the layout and changes no other byte |
| TableModel.LoadReads | external/parallel_hashmap/phmap.h:2064-2078 | a group load reads the cyclic control bytes |
| TableModel.LoadedFrom | external/parallel_hashmap/phmap.h:2064-2078 | and nothing else, but for the dummy empty bytes of a small table |
| TableModel.WindowHadEmpty | external/parallel_hashmap/phmap.h:1750-1756 | if the non-empty run around a slot is shorter than a group, every window over the slot holds an empty byte |
| TableModel.ShortRunMeaning | external/parallel_hashmap/phmap.h:1750-1756 | the run is short if and only if every window over the slot holds an empty byte |
| TableModel.LongRunWindow | external/parallel_hashmap/phmap.h:1750-1756 | otherwise some window over the slot may have been seen full |
| TableModel.ReachableAfterErase | external/parallel_hashmap/phmap.h:1742-1761 | marking such a slot empty leaves every other element reachable |
| TableModel.EraseKeeps | external/parallel_hashmap/phmap.h:1742-1761 | erasing keeps the representation and the load accounting, whichever mark is written |
| TableModel.SearchGoesOn | external/parallel_hashmap/phmap.h:1566-1580 | a search that has seen no empty byte has windows left as long as there is an empty slot, so it terminates |
| TableModel.PresentSeen | external/parallel_hashmap/phmap.h:1566-1580 | a search that meets an empty byte has already passed the window of a present key |
| TableModel.RehashStay | external/parallel_hashmap/phmap.h:1862-1866 | an element whose slot and target share a window may stay |
| TableModel.RehashMove | external/parallel_hashmap/phmap.h:1867-1873 | moving it to an empty target keeps every settled element settled |
| TableModel.RehashSwap | external/parallel_hashmap/phmap.h:1874-1883 | swapping it with a waiting one settles it and lowers the number of waiting ones |
| TableStages.LoadOf | external/parallel_hashmap/phmap.h:2032-2034 | in every sound table size, deleted slots and growth left add up to the load limit; a large table has an empty byte, a small one no deleted byte |
| RawHashSet.Table.constructor | external/parallel_hashmap/phmap.h:256-261 | a new table is sound, empty and has no slots |
| RawHashSet.Table.FindInGroup | external/parallel_hashmap/phmap.h:1569-1575 | finds the key's slot if the window holds it, and otherwise shows that no full slot of the window does |
| RawHashSet.Table.Find | external/parallel_hashmap/phmap.h:1566-1580 | terminates, and returns the slot of the key exactly when the map has it |
| RawHashSet.Table.Search | external/parallel_hashmap/phmap.h:1566-1580 | the probing loop does so on every table with an empty slot, whatever its counters say |
| RawHashSet.Table.FindFirstNonFull | external/parallel_hashmap/phmap.h:1935-1946 | the first free slot of the probe sequence: no earlier window has one, nor any earlier byte of its own window |
| TableModel.TargetUnique | external/parallel_hashmap/phmap.h:1935-1945 | there is only one such slot |
| RawHashSet.Table.SkipEmptyOrDeleted | external/parallel_hashmap/phmap.h:893-903 | the next full slot, none skipped |
| RawHashSet.Table.NextFull | external/parallel_hashmap/phmap.h:893-903 | the same for iteration over a sound table |
| RawHashSet.Table.WriteCtrl | external/parallel_hashmap/phmap.h:2038-2050 | writes the byte and its mirror |
| RawHashSet.Table.WasNeverFull | external/parallel_hashmap/phmap.h:1745-1756 | is true exactly when the run around the slot is shorter than a group |
| RawHashSet.Table.EraseMetaOnly | external/parallel_hashmap/phmap.h:1742-1761 | exactly that key leaves the map; the slot is marked empty exactly for a short run, and no other byte changes |
| RawHashSet.Table.Erase | external/parallel_hashmap/phmap.h:1404-1409 | the key leaves the map, and the number erased says whether it was there |
| RawHashSet.Table.ResetCtrl | external/parallel_hashmap/phmap.h:2026-2030 | all bytes empty but the sentinel |
| RawHashSet.Table.InitializeSlots | external/parallel_hashmap/phmap.h:1763-1778 | new arrays, empty, with the growth counter set |
| RawHashSet.Table.Resize | external/parallel_hashmap/phmap.h:1798-1823 | every element moves to the new arrays and stays reachable; the table is sound if the elements are within the new load limit |
| RawHashSet.Table.ConvertDeletedToEmptyAndFullToDeleted | external/parallel_hashmap/phmap.h:470-481 | every slot's byte is converted and the layout, sentinel and clones included, is kept |
| RawHashSet.Table.RehashSlot | external/parallel_hashmap/phmap.h:1848-1884 | one visit settles a slot or lowers the number of waiting elements |
| RawHashSet.Table.RehashSlots | external/parallel_hashmap/phmap.h:1848-1884 | the loop with its step back terminates and settles every element |
| RawHashSet.Table.DropDeletesWithoutResize | external/parallel_hashmap/phmap.h:1825-1886 | the same arrays hold the same map, no deleted byte is left, and all freed slots are insertable again |
| RawHashSet.Table.RehashAndGrowIfNecessary | external/parallel_hashmap/phmap.h:1888-1898 | there is growth left afterwards; with more than half of the load limit in use the capacity goes to the next one, otherwise capacity and arrays stay; no small table is rehashed in place |
| RawHashSet.Table.PrepareInsert | external/parallel_hashmap/phmap.h:1983-1995 | a slot on the key's chain is marked full; room is made first exactly if no growth is left and the first free slot on the way is not a deleted one |
| RawHashSet.Table.Insert | external/parallel_hashmap/phmap.h:1962-1976 | a present key is left alone, a new one is added, and the result says which and where; unless room has to be made no other slot or control byte changes, and the capacity grows exactly if room has to be made with more than half of the load limit in use |
| RawHashSet.Table.DestroySlots | external/parallel_hashmap/phmap.h:1780-1796 | an empty table without slots |
| RawHashSet.Table.Rehash | external/parallel_hashmap/phmap.h:1507-1521 | the elements stay; the table is sound afterwards if and only if `n` is positive or the elements are within the load limit of their own number |
| RawHashSet.Table.Reserve | external/parallel_hashmap/phmap.h:1523 | afterwards the load limit is at least `n`; there is growth left for `n` elements in all if and only if the call reallocates, or `n` and the number of deleted marks together do not exceed the load limit |
| RawHashSet.Table.Clear | external/parallel_hashmap/phmap.h:1159-1183 | the map is empty; arrays above 127 slots are given up, smaller ones reused |
| RawHashSet.Table.Merge | external/parallel_hashmap/phmap.h:1447-1456 | elements with new keys move, the others stay in the source, both tables sound |
| RawHashSet.Run | external/parallel_hashmap/phmap.h:1742-1995 | every run of lookups, insertions, erasures, reservations and clears answers as a plain map does, for every hash function and both widths, and its capacity never exceeds 32 slots to seven elements held or reserved for; only `reserve(0)` has a condition, that its elements do not exceed the load limit of the capacity that just holds them |
| RawHashSet.InsertReserved | external/parallel_hashmap/phmap.h:1505-1523 | under that condition every inserted element stays in the slot its insertion named: no rehash, not even in place |
| RawHashSet.ReserveFallsShort | external/parallel_hashmap/phmap.h:1507-1523 | fourteen elements in fifteen slots, one erased: after `reserve(14)` there is no growth left |
| TableModel.SingleEmpty | external/parallel_hashmap/phmap.h:1742-1761 | with a single empty slot in more than one group, erasing any element leaves a deleted mark |
| RawHashSet.RehashZeroOverfills | external/parallel_hashmap/phmap.h:1516 | seven elements (width 8) and fifteen (width 16) exceed the load limit of the capacity `rehash(0)` picks |
| RawHashSet.RehashZero | external/parallel_hashmap/phmap.h:1507-1521 | after `rehash(0)` the search for an absent key never ends if and only if the size is a valid capacity of a large table |
| TableStages.NeverEndsExact | external/parallel_hashmap/phmap.h:1566-1580 | no window of the probe sequence shows the key or an empty byte if and only if the table is large and every slot is full |
| RawHashSet.Table.InsertWrapped | external/parallel_hashmap/phmap.h:1978-1995 | on a table whose growth counter has wrapped, a new element is placed without a rehash |
| RawHashSet.InsertAfterRehashZero | external/parallel_hashmap/phmap.h:1507-1521 | after an unsound `rehash(0)` insertions never change the capacity, and the search for an absent key never ends if and only if as many elements as slots are in |
| RawHashSet.RehashZeroUnsound | external/parallel_hashmap/phmap.h:1507-1521 | inserting that many elements into a new table and calling `rehash(0)` leaves it unsound, with a wrapped growth counter, and no search for another key ends |
| BtreeModel.InPlace | external/parallel_hashmap/btree.h:3242-3268 | every subtree's sequence stands in the whole where the climb over `parent` and `position` says |
| BtreeShape.SplitWellFormed | external/parallel_hashmap/btree.h:2306-2344 | a split keeps all links, levels and counts of children |
| BtreeShape.SplitSub | external/parallel_hashmap/btree.h:2306-2344 | the halves and the value between them make the old sequence; every other subtree's sequence is unchanged |
| BtreeShape.SplitStart | external/parallel_hashmap/btree.h:2306-2344 | every subtree begins where it did, those that moved to the new node included |
| BtreeShape.MergeWellFormed | external/parallel_hashmap/btree.h:2347-2374 | a merge keeps all links |
| BtreeShape.MergeInverse | external/parallel_hashmap/btree.h:2347-2374 | splitting where two nodes were merged gives back the same tree, record by record |
| BtreeShape.MergeKeeps | external/parallel_hashmap/btree.h:2347-2374 | a merge keeps every other sequence and every start |
| BtreeShape.ShareKeeps | external/parallel_hashmap/btree.h:2183-2303 | moving values between neighbours keeps them too |
| BtreeChange.SetValues | external/parallel_hashmap/btree.h:2138-2180 | new values in one node replace exactly that stretch of the whole sequence |
| BtreeChange.GrowKeeps | external/parallel_hashmap/btree.h:2977-2986 | a new root above the old one changes no sequence and no start |
| BtreeChange.ShrinkInverse | external/parallel_hashmap/btree.h:3080-3086 | growing undoes shrinking |
| BtreePlace.SplitSound | external/parallel_hashmap/btree.h:2988-2997 | capacity bounds, leftmost and rightmost leaf survive a split, and only the named node may be empty |
| BtreePlace.MergeSound | external/parallel_hashmap/btree.h:3006-3014 | and a merge, after which only the parent may be empty |
| BtreePlace.ShareSound | external/parallel_hashmap/btree.h:2183-2303 | and a move between neighbours, after which no node is empty |
| BtreeSearch.LinearSearch | external/parallel_hashmap/btree.h:1274-1285 | the position is the first value that does not come before the key, and cuts the node in two |
| BtreeSearch.BinarySearch | external/parallel_hashmap/btree.h:1307-1320 | the same position |
| BtreeSearch.MarkZero | external/parallel_hashmap/btree.h:1718-1720 | only `begin()` is on the value at index zero |
| BtreeSearch.RightEndUnique | external/parallel_hashmap/btree.h:1724 | there is one leaf at the right end |
| BtreeSteps.ShareSamePlace | external/parallel_hashmap/btree.h:2932-2965 | the corrected position names the same index, or the same child, after a move |
| BtreeSteps.SplitSamePlace | external/parallel_hashmap/btree.h:2999-3002 | and after a split |
| BtreeSteps.MergeSamePlace | external/parallel_hashmap/btree.h:3021-3038 | and after a merge |
| BtreeSteps.ReadyAbove | external/parallel_hashmap/btree.h:2972-2976 | after the recursive call the child's actual parent has room |
| Btree.BTree.constructor | external/parallel_hashmap/btree.h:2525-2526 | an empty tree on the static empty node |
| Btree.BTree.Descend | external/parallel_hashmap/btree.h:3146-3163 | ends in a leaf at the index that cuts the whole sequence by the comparison |
| Btree.BTree.InternalLast | external/parallel_hashmap/btree.h:3091-3102 | the value at the same index, or none exactly when the index is the end |
| Btree.BTree.LowerBound | external/parallel_hashmap/btree.h:3186-3197 | the first value of the sequence not less than the key, or none if all are less |
| Btree.BTree.UpperBound | external/parallel_hashmap/btree.h:3200-3211 | the first value greater than the key, or none |
| Btree.BTree.Find | external/parallel_hashmap/btree.h:3214-3227 | a value equivalent to the key, and none exactly when the sequence has none |
| Btree.BTree.Begin | external/parallel_hashmap/btree.h:1718-1720 | index zero |
| Btree.BTree.End | external/parallel_hashmap/btree.h:1724 | the index behind the last value |
| Btree.BTree.Increment | external/parallel_hashmap/btree.h:1521-1526 | one index further, and from the last value to `end()` itself |
| Btree.BTree.ClimbRight | external/parallel_hashmap/btree.h:2425-2445 | climbing keeps the index, and gives up at the root exactly at the end |
| Btree.BTree.Decrement | external/parallel_hashmap/btree.h:1529-1534 | one index back; from an internal node into a leaf |
| Btree.BTree.ClimbLeft | external/parallel_hashmap/btree.h:2448-2468 | the value right before the subtree |
| Btree.BTree.SplitAfter | external/parallel_hashmap/btree.h:2324-2344 | the written records and the re-linked children are the split; the values are those of `BtreeSlots.Slots.Split` |
| Btree.BTree.MergeNodes | external/parallel_hashmap/btree.h:3006-3014 | the written records are the merge, and the rightmost leaf follows |
| Btree.BTree.RebalanceRightToLeft | external/parallel_hashmap/btree.h:2183-2224 | the two nodes and the delimiter share the same values anew, children included |
| Btree.BTree.RebalanceLeftToRight | external/parallel_hashmap/btree.h:2227-2303 | the same in the other direction |
| Btree.BTree.TryLeft | external/parallel_hashmap/btree.h:2914-2941 | values move exactly if that makes room, half of what the neighbour lacks or all of it when the new value goes to the end; then there is room at the place asked for |
| Btree.BTree.TryRight | external/parallel_hashmap/btree.h:2943-2967 | the same with the right neighbour |
| BtreeSteps.GivenShare | external/parallel_hashmap/btree.h:2921-2925 | a neighbour is filled up when the new value goes to the far end, and otherwise still lacks as many values as it is given, or one more |
| BtreeSteps.LeftHelpsMeans | external/parallel_hashmap/btree.h:2926-2928 | values move left exactly if the node that the place of the new value is in then has room |
| BtreeSteps.RightHelpsMeans | external/parallel_hashmap/btree.h:2948-2956 | the same to the right |
| Btree.BTree.SplitFull | external/parallel_hashmap/btree.h:2310-2323 | the node is split at the point the source chooses by the insert position, and there is room at the place asked for |
| BtreeSteps.SplitPointFits | external/parallel_hashmap/btree.h:2313-2323 | the biased split leaves the node that the new value does not go to filled |
| BtreeSteps.SplitPointBias | external/parallel_hashmap/btree.h:2310-2323 | a split for a value at the end keeps all values but one in the old node, at the front gives them to the new one, and elsewhere makes halves that differ by at most one |
| Btree.BTree.RebalanceOrSplit | external/parallel_hashmap/btree.h:2905-3003 | terminates by height; the sequence is unchanged, the result has room and names the same place, only that node may be empty, and nothing below the level changes |
| Btree.BTree.GrowLeafRoot | external/parallel_hashmap/btree.h:3115-3125 | a root leaf of twice the size, or the full size, with the same values |
| Btree.BTree.InternalEmplace | external/parallel_hashmap/btree.h:3106-3135 | the value comes to stand exactly at the iterator's index, and the result points at it |
| Btree.BTree.InsertUnique | external/parallel_hashmap/btree.h:2535-2557 | the sequence is the sorted insertion found by a linear scan; unchanged with `false` exactly when an equivalent value was there; the result points at it; the tree stays valid |
| Btree.BTree.InsertHintUnique | external/parallel_hashmap/btree.h:2561-2583 | for every hint the same sequence, flag and pointed-at value as `InsertUnique` |
| Btree.BTree.TryMergeOrRebalance | external/parallel_hashmap/btree.h:3017-3068 | the iterator's place survives and no node is left empty, but for the parent of a merge; it merges, and one node goes, exactly if the node fits into one with a neighbour |
| Btree.BTree.TryTakeRight | external/parallel_hashmap/btree.h:3037-3050 | values come from the right neighbour exactly if it has more than half of the most, and the node is empty or its first value was not the one erased; the two then differ by at most one |
| Btree.BTree.TryTakeLeft | external/parallel_hashmap/btree.h:3052-3068 | the same with the left neighbour |
| Btree.BTree.TryShrink | external/parallel_hashmap/btree.h:3071-3087 | an empty root goes, the sequence and every leaf position stay |
| Btree.BTree.ClimbAfterDelete | external/parallel_hashmap/btree.h:2725-2749 | no node is empty afterwards and the index is kept; a leaf with half of the most values or more is left alone, and with fewer the nodes get fewer exactly if it fits into one with a neighbour |
| Btree.BTree.RebalanceAfterDelete | external/parallel_hashmap/btree.h:2722-2759 | and points at the value there, or is `end()` |
| Btree.BTree.Erase | external/parallel_hashmap/btree.h:2686-2719 | exactly the value pointed at leaves the sequence, also from an internal node; the tree stays valid; the result points at its successor or is `end()` |
| Btree.BTree.EraseUnique | external/parallel_hashmap/btree.h:2842-2851 | the equivalent value leaves, and the answer says whether there was one |
| Btree.BTree.Clear | external/parallel_hashmap/btree.h:2866-2873 | an empty valid tree |
| Btree.BTree.InternalVerify | external/parallel_hashmap/btree.h:3242-3268 | in a valid tree every assertion holds and the count is that of the subtree |
| Btree.BTree.Verify | external/parallel_hashmap/btree.h:2893-2902 | `verify` never fails |
| Btree.Run | external/parallel_hashmap/btree.h:2535-3135 | every run of insertions, erasures, lookups and clears answers as a plain sorted sequence does and ends with its contents, for every order, node size and search |
| BtreeSlots.Slots.EmplaceValue | external/parallel_hashmap/btree.h:2138-2151 | the shifted array holds the sequence with the value put in |
| BtreeSlots.Slots.RemoveValue | external/parallel_hashmap/btree.h:2175-2180 | and with the value taken out |
| BtreeSlots.Slots.Append | external/parallel_hashmap/btree.h:2193-2202 | the delimiter and the first values of the neighbour follow the values of the node |
| BtreeSlots.Slots.DropFirst | external/parallel_hashmap/btree.h:2207-2212 | the neighbour keeps the rest |
| BtreeSlots.Slots.RebalanceRightToLeft | external/parallel_hashmap/btree.h:2193-2209 | both nodes and the delimiter get exactly the values that `Btree.BTree.RebalanceRightToLeft` writes; left, delimiter and right are the same sequence before and after |
| BtreeSlots.Slots.RebalanceLeftToRight | external/parallel_hashmap/btree.h:2236-2286 | the same in the other direction, whether or not the values fit the initialised slots |
| BtreeSlots.Slots.PourWithin | external/parallel_hashmap/btree.h:2242-2262 | the branch with enough initialised slots, overlapping shift included |
| BtreeSlots.Slots.PourBeyond | external/parallel_hashmap/btree.h:2263-2280 | the other branch |
| BtreeSlots.Slots.Split | external/parallel_hashmap/btree.h:2315-2333 | both halves and the value handed up are those that `Btree.BTree.SplitAfter` writes; together they are the old sequence |
| BtreeSlots.Slots.Merge | external/parallel_hashmap/btree.h:2351-2358 | the merged node holds both around the delimiter |
| PoolUpdate.InsertAll | src/BlockchainExplorer/BlockchainExplorer.cpp:547-555 | the known pool grows by the new hashes, and those inserted are listed |
| PoolUpdate.EraseAll | src/BlockchainExplorer/BlockchainExplorer.cpp:557-567 | it shrinks by the removed ones, and those erased are listed |
| PoolUpdate.AddedMeaning | src/BlockchainExplorer/BlockchainExplorer.cpp:547-555 | listed as new are exactly the hashes that were not known, each once |
| PoolUpdate.RemovedMeaning | src/BlockchainExplorer/BlockchainExplorer.cpp:557-567 | listed as removed are exactly the hashes that were known, each once |
| PoolUpdate.ApplyAnswer | src/BlockchainExplorer/BlockchainExplorer.cpp:545-567 | the two loops, one after the other, are what the step of the state machine does |
| PoolUpdate.ApplyMeaning | src/BlockchainExplorer/BlockchainExplorer.cpp:545-567 | whatever the node answers, a hash is known afterwards exactly if it is not removed and was known or is new; one that is both is reported as both |
| PoolUpdate.StepHolds | src/BlockchainExplorer/BlockchainExplorer.cpp:74-109 | every enabled action of every thread keeps the invariant |
| PoolUpdate.Reachable | src/BlockchainExplorer/BlockchainExplorer.cpp:500-613 | so every run does |
| PoolUpdate.OneUpdate | src/BlockchainExplorer/BlockchainExplorer.cpp:500-613 | in every run at most one update is open: never two threads, two requests, or a thread and a request see to one; the guard is free exactly when none is; updates begun and ended balance |
| PoolUpdate.Exclusive | src/BlockchainExplorer/BlockchainExplorer.cpp:100-109 | the mutex has one holder, and the assertion of `endUpdate` never fails |
| PoolUpdate.RefusalRecorded | src/BlockchainExplorer/BlockchainExplorer.cpp:74-98 | a call whose exchange refuses it leaves a guard that says `UPDATE_REQUIRED` |
| PoolUpdate.RefusalKept | src/BlockchainExplorer/BlockchainExplorer.cpp:74-109 | in every run a refused notification is represented by the guard or by a re-running thread, unless an update has begun since or the re-run found nothing to do |
| PoolUpdate.RefusalEnds | src/BlockchainExplorer/BlockchainExplorer.cpp:500-613 | it stops being represented only when an update begins, or when its re-run finds the explorer unsynchronised or without observers |
| PoolUpdate.BeginsChecked | src/BlockchainExplorer/BlockchainExplorer.cpp:503-509 | whenever an update begins, the thread last saw the explorer synchronised and last saw observers, by the actions of the run |
| PoolUpdate.NeverBegins | src/BlockchainExplorer/BlockchainExplorer.cpp:503-509 | in a run that never sets the flag, or never adds an observer, no update begins |
| PoolUpdate.FourEach | src/BlockchainExplorer/BlockchainExplorer.cpp:74-98 | in every run each call takes at most four actions, failed exchanges aside, so that a refused call returns |
| PoolUpdate.Returns | src/BlockchainExplorer/BlockchainExplorer.cpp:74-98 | left alone, a call returns or begins an update within four actions, whatever the others were stopped at |
| PoolUpdate.ExactAnswer | src/BlockchainExplorer/BlockchainExplorer.cpp:519-567 | an exact difference is applied to exactly the set it was asked for, so the known pool becomes the node's pool |
| PoolUpdate.DeltasRebuild | src/BlockchainExplorer/BlockchainExplorer.cpp:545-600 | folding the computed deltas gives the known pool, and observers are told of deltas in order, of none twice and of no empty one |
| PoolUpdate.NewOnce | src/BlockchainExplorer/BlockchainExplorer.cpp:545-567 | no hash is computed as new twice without being computed as removed in between |
| PoolUpdate.ToldOrLost | src/BlockchainExplorer/BlockchainExplorer.cpp:569-600 | between updates of every run, the observers were told of exactly the deltas that are not empty and whose details were not lost |
| PoolUpdate.LostOnly | src/BlockchainExplorer/BlockchainExplorer.cpp:586-593 | a delta is lost only by the last step of its own update: a details request that is not sent or that fails |
| PoolUpdate.ObserversCurrent | src/BlockchainExplorer/BlockchainExplorer.cpp:545-600 | between updates the observers were told all non-empty deltas, in order, if and only if the run has no details request for a non-empty delta that was not sent or was answered with an error, and then what they were told adds up to the known pool |
| PoolUpdate.ObserversBehind | src/BlockchainExplorer/BlockchainExplorer.cpp:586-593 | a run with one failed details request ends its update with a known pool the observers were not told of |
| PoolUpdate.TerminatesOnly | src/BlockchainExplorer/BlockchainExplorer.cpp:111-123 | an action ends the program if and only if it is the failed request of a re-run |
| PoolUpdate.EndsProgram | src/BlockchainExplorer/BlockchainExplorer.cpp:111-123 | a run ends the program if and only if its last action is a `poolChanged` request that throws, in a call that the thread's own `endUpdate` and no notification started; and never unless a notification was refused |
| PoolUpdate.ProgramEnds | src/BlockchainExplorer/BlockchainExplorer.cpp:500-613 | there is such a run: two notifications, an error and a request that throws |
| PoolUpdate.Origin | src/BlockchainExplorer/BlockchainExplorer.cpp:609-613 | who started the call a thread is in can be read off its last actions |
| PoolUpdate.CanEnd | src/BlockchainExplorer/BlockchainExplorer.cpp:500-613 | from every reachable state with an open update, unless the program has ended, some run ends it: neither the mutex nor a cancelled handler can block it |
| PoolUpdate.TenEach | src/BlockchainExplorer/BlockchainExplorer.cpp:500-613 | every run, whatever the threads and the node do, spends at most ten actions on each update begun, spurious failures of the exchange aside |
| PoolUpdate.TenLeft | src/BlockchainExplorer/BlockchainExplorer.cpp:500-613 | from any reachable state, at most ten until the next update begins |
| ChunkedTransfer.HexValue | external/miniupnpc/minihttptestserver.c:124-126 | a number printed in hexadecimal and read back is the number |
| ChunkedTransfer.DigitRows | external/miniupnpc/miniwget.c:190-208 | the digits are those of the rows `0123456789abcdef` and `0123456789ABCDEF` and no others, each worth its place |
| ChunkedTransfer.CaseBlind | external/miniupnpc/miniwget.c:201-208 | the case of the digits does not change the number |
| ChunkedTransfer.UpperHexValue | external/miniupnpc/miniwget.c:201-208 | a number printed with upper-case digits is read back as well |
| ChunkedTransfer.HexDigitRow | external/miniupnpc/minihttptestserver.c:124-126 | the encoder prints lower-case digits |
| ChunkedTransfer.ReadSize | external/miniupnpc/miniwget.c:201-208 | the value of the digits, wrapped to 32 bits |
| ChunkedTransfer.BytesToCopy | external/miniupnpc/miniwget.c:228 | the number of bytes copied stays within the segment if and only if the chunk size is below 2^31, and is then the lesser of the two |
| ChunkedTransfer.Decoder.ReadLine | external/miniupnpc/miniwget.c:182-218 | what the segment holds of a size line is read as the automaton reads it |
| ChunkedTransfer.Decoder.CollectDigits | external/miniupnpc/miniwget.c:190-196 | at most 31 digits are collected |
| ChunkedTransfer.Decoder.SkipExtension | external/miniupnpc/miniwget.c:197-198 | the rest of the line is dropped |
| ChunkedTransfer.Decoder.Copy | external/miniupnpc/miniwget.c:228-242 | what the segment holds of the chunk is appended, or, exactly for chunk sizes of 2^31 or more, the copy goes past the segment |
| ChunkedTransfer.Decoder.Receive | external/miniupnpc/miniwget.c:177-244 | one receive takes the decoder through the automaton, from the top of the loop, up to a copy that goes past the segment |
| ChunkedTransfer.ReadBody | external/miniupnpc/miniwget.c:86-285 | the receive loop, up to an empty receive, the end of the stream, or a copy past a segment; that happens exactly when a size line is read with digits of 2^31 or more modulo 2^32 |
| ChunkedTransfer.ArrivingExact | external/miniupnpc/miniwget.c:86-285 | the segments read are all those before the first empty receive |
| ChunkedTransfer.Decodes | external/miniupnpc/miniwget.c:177-244 | however a body is cut into segments, the decoder rebuilds its data and knows that it is complete; the sizes are below 2^31 and of any number of digits whose first 31 denote the same number |
| ChunkedTransfer.SpelledDecodes | external/miniupnpc/miniwget.c:177-244 | bodies whose sizes are printed in any mixture of cases are decoded for every segmentation |
| ChunkedTransfer.UpperDecodes | external/miniupnpc/miniwget.c:177-244 | in particular with upper-case sizes |
| ChunkedTransfer.DecodesPart | external/miniupnpc/miniwget.c:177-244 | of a part of a stream of chunks it has read a prefix of the data, and it never stops before the line after the chunks |
| ChunkedTransfer.Reads | external/miniupnpc/miniwget.c:177-244 | the same for sizes that are cut short or wrap around: the data of the chunks is read, and the next line decides whether the stream ends there or the copy fails |
| ChunkedTransfer.StopsAt | external/miniupnpc/miniwget.c:199-240 | a chunk whose size is read as zero or as 2^31 or more stops the decoder with the data of the chunks before it |
| ChunkedTransfer.OverrunExact | external/miniupnpc/miniwget.c:199-240 | for every stream and segmentation, the copy goes past a segment if and only if the digits of some size line, modulo 2^32, are at least 2^31 |
| ChunkedTransfer.OverrunStream | external/miniupnpc/miniwget.c:199-240 | for streams of chunks that depends on the line after the chunks alone, not on the segments |
| ChunkedTransfer.OverrunInput | external/miniupnpc/miniwget.c:228 | the size line `80000000` in one segment |
| ChunkedTransfer.BuildChunkedResponse | external/miniupnpc/minihttptestserver.c:103-136 | the response is a well-formed body with the content as its data, whatever the random numbers, and it was written inside its buffer if and only if the framing of the chunks is at most 178 plus a sixteenth of the content |
| ChunkedTransfer.EveryLength | external/miniupnpc/minihttptestserver.c:117-121 | every chunk length from 1 to 199 comes up, each for one random number in 199 |
| ChunkedTransfer.FitsExact | external/miniupnpc/minihttptestserver.c:103-136 | the same for the lengths of headers, chunks and last chunk together |
| ChunkedTransfer.AlwaysFits | external/miniupnpc/minihttptestserver.c:103-136 | they fit for all random numbers if and only if the content has at most 36 bytes |
| ChunkedTransfer.RoundTrip | external/miniupnpc/minihttptestserver.c:97-142 | for every content, all random chunk lengths and every cut into non-empty receives, the decoder returns the content |
| ChunkedExtensions.ReadsRightExact | external/miniupnpc/miniwget.c:182-218 | a size line, with a number of any length, is read right for every segmentation if and only if the number is below 2^32, its first 31 digits denote it, and what follows them is harmless |
| ChunkedExtensions.CutIndependent | external/miniupnpc/miniwget.c:182-218 | what is read does not depend on the cut if and only if 31 digits are kept, or each later digit of the line repeats the eight equal last digits of the size, or is followed directly by eight more and has room for them |
| ChunkedExtensions.LongExact | external/miniupnpc/miniwget.c:190-196 | a number of more than 31 digits is read right if and only if it is zero |
| ChunkedExtensions.CutShort | external/miniupnpc/miniwget.c:190-196 | any other is taken for the number of its first 31 digits, however the line is cut |
| ChunkedExtensions.ZerosMisread | external/miniupnpc/miniwget.c:190-226 | 31 zeros and one more digit are taken for the end of the body by every segmentation |
| ChunkedExtensions.WrapMisread | external/miniupnpc/miniwget.c:201-226 | and so is the size 2^32 |
| ChunkedExtensions.OrdinaryExact | external/miniupnpc/miniwget.c:182-218 | numbers of fewer than 31 digits whose last eight are not all alike are read right if and only if they are below 2^32 and the extension has no digit |
| ChunkedExtensions.LastChunkExact | external/miniupnpc/miniwget.c:182-218 | zero of fewer than 31 digits, with no row of more than eight digits in the extension, is read right if and only if every digit in the extension is a zero |
| ChunkedExtensions.HarmlessRead | external/miniupnpc/miniwget.c:190-218 | every segmentation of a line with a harmless rest gives the value of the digits kept, modulo 2^32 |
| ChunkedExtensions.Misread | external/miniupnpc/miniwget.c:190-196 | cut before digits of the extension, a line is read as one whose size goes on with them |
| ChunkedExtensions.LateDigitHarms | external/miniupnpc/miniwget.c:190-196 | cut before every byte, all digits of an extension are collected until there are 31, which leaves a late one in the size |
| ChunkedExtensions.EndMisread | external/miniupnpc/miniwget.c:219-226 | the line of the last chunk, cut before a digit of its extension, is taken for a chunk with data |
| ChunkedExtensions.ShiftedOut | external/miniupnpc/miniwget.c:201-208 | any digit followed by eight zeros in the extension of the last chunk does no harm |
| ChunkedExtensions.BareLineFeed | external/miniupnpc/miniwget.c:199-200 | a line feed alone ends a size line |
| ChunkedExtensions.LoneReturn | external/miniupnpc/miniwget.c:199-218 | a carriage return alone does not: the digits after it go on with the size |
| ChunkedExtensions.NoSize | external/miniupnpc/miniwget.c:197-226 | a line without any digit ends the body |
| ChunkedExtensions.LeadOptional | external/miniupnpc/miniwget.c:184-188 | the line end before a size line may be missing, or be a line feed alone |

## Left out

- Memory: allocation, object lifetime, alignment, poisoning, exceptions thrown by element types.
- SSE2 instructions: for groups of 16 the lanes are compared one by one.
- Heterogeneous lookup, the set and map wrappers, copying, swapping and iterator ranges of both containers.
- `phmap_dump.h`, the parallel table with its locks, the mixing of hashes.
- B-tree searches by a three-way comparison, multi-containers, and erasing a range.
- Btree.BTree: the values of a node are a sequence, not an array; the array moves are in `BtreeSlots.Slots`.
- Btree.BTree.Increment: incrementing `end()` and decrementing `begin()`, which the source leaves to its callers.
- PoolUpdate: the guard, the mutex and the flags are steps over one state value; weak memory orders are not modelled.
- PoolUpdate: fairness; an update can always end, but that it does needs the node to answer and the threads to run.
- PoolUpdate.ToldOrLost: the node is taken to give details for every transaction it is asked about when it reports no error.
- The other notifications and all queries of the explorer, the details of transactions, and the delivery to observers.
- ChunkedTransfer.Decoder.Receive: what a copy past the segment reads; the decoder stops there.
- ChunkedTransfer.BuildChunkedResponse: the bytes of the headers, and what happens when the response does not fit its buffer.
- HTTP headers, `Content-Length`, bodies that are not chunked, the growth of the content buffer, sockets and timeouts.
- The rest of the repository: wallets, console, interfaces, constants, and the rest of miniupnpc.
