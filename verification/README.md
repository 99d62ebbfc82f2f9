# Routing stack of the Core Lightning payment plugin, verified

This project models the plugin's route finding and the data structures below it in Dafny and
proves what they are for.

- `GheapIndex`, `Gheap`: the paged d-ary heap of external/gheap, with the back-pointers that
  common/dijkstra.c keeps through its item mover.
- `Dijkstra`, `RouteScore`, `BestPath`, `Route`, `Amount`, `PathSearch`: the backwards search over
  that heap, the scores and the risk price, what is the best path by them, the hops with compounding
  fees, and the whole of it on a gossmap.
- `Graph`, `Arena`, `Gossmap`, `Localmods`, `Fp16`: the graph arena with its free lists,
  adjacency lists and indexes, replaying a gossip store, and local modifications.
- `HtableSlots`, `Htable`: open addressing with tombstones, in-place rehash and bits packed into
  pointers. `CritTree`, `Intmap`, `Strmap`: the crit-bit trees. `Asort`: the sort.
- `Crc32c`, `CrcSerial`, `Bigsize`, `Tlvstream`, `AmountText`: encodings and their fast forms.
- `Jsmn`, `JsonInput`, `JsonTree`, `JsonEqual`, `JsonRemove`: the tokenizer, reading a message in
  pieces, the token arrays, the validator and comparison and removal on them.
- `JsonDoc`, `JsonText`, `JsonPrint`, `JsonSound`: JSON values, the grammar of their texts, what the
  tokenizer and the comparison make of any such text, and what the tokenizer makes of any text at all.
- `Numbers`, `Words`, `Wrappers`: limits, machine words as sets of one-bits, and options.

How the model reads the source:

- A comparison callback is a function; proofs use a ghost number that ranks items, and the two
  `RankExists` lemmas show that every admissible comparison has one.
- `path_score` must not drop along an edge from any record that a search can come to
  (`Dijkstra.EdgeMonotone`). `dijkstra_` takes the risk price as any function of cost and delay;
  `RouteScore.RiskPrice` is the code's own, with the factor as an exact fraction where the code
  multiplies floating-point numbers.
- `total_delay` wraps at 32 bits, as the code computes it. A comment there says that it cannot
  overflow, having 20 bits per hop: that is so for graphs of up to 4096 nodes
  (`RouteScore.FewNodesFit`), or of any size with delays that add up to less.
- `route_score_cheaper` adds cost and risk in 64 bits and can drop where that wraps; a riskfactor of
  up to 2508 percent a year rules it out for amounts that channels carry.
- Table words, checksums and integer keys are sets of one-bits; `& (capacity - 1)` is the number
  written by the low bits. A pointer can be stored if its word always shows a bit above bit 0, be it
  one of its own, which all pointers share as their highest, or a hash bit above all pointers: the
  second is for array indexes kept as pointers. `Htable.PointerOne` and `Htable.TwoOrThreeIsMissed`
  say what becomes of the pointers 1, 2 and 3.
- The gossip store is a map from offsets to announcements (scid, node ids, place of the scid)
  plus a sequence of records; the two hash indexes of the map are maps. An announced scid is new,
  its ends differ, and updates and node announcements name something known, or the code stops.
  Arenas stay within the 31 bits of a node index: the number of nodes and channels is bounded, not
  the size of the arrays.
- `tlv_field_cmp` never calls two fields equal; the sort is proved for it when types are distinct.
  With repeated types it can leave the array: `Tlvstream.SortFew` has the exact condition for up to
  four fields.
- The tokenizer is modelled with `JSMN_STRICT`, which common/json.h defines, and without it, and
  stops at a zero byte as it does.
- parse_amount_sat takes msat numbers that start with a zero and are no whole satoshi for satoshi:
  `AmountText.MsatInSatExactly` says exactly when it is right, `LeadingZeroMisread` is the input.
- In json_tok_remove only the tokens of the tree are moved, so the last token of the shortened
  array is whatever stood at that place before, not the terminator.
- In the crit-bit trees a place written through a pointer is the path that leads to it.

## Model

| member | source | states |
|---|---|---|
| `GheapIndex.ParentOfChild` | external/gheap/gheap.h:169-245 | for every fanout and page size, each of the fanout children of u has u as its parent |
| `GheapIndex.ChildOfParent` | external/gheap/gheap.h:169-245 | every non-root index lies in the chunk of children of its parent, and the parent comes before it |
| `GheapIndex.ChildIndexExact` | external/gheap/gheap.h:202-245 | the child index computed with overflow tests is the exact one, or SIZE_MAX exactly when that does not fit |
| `GheapIndex.ChunkAligned` | external/gheap/gheap.h:202-245 | children start at 1 modulo the fanout, which sift-down relies on for its last chunk |
| `Gheap.SiftUp` | external/gheap/gheap.h:265-288 | the hole moves towards the root until the item fits: heap order from root down, a permutation, back-pointers right, nothing else touched |
| `Gheap.MaxChild` | external/gheap/gheap.h:294-317 | the child picked ranks at least as high as its siblings |
| `Gheap.SiftDown` | external/gheap/gheap.h:323-349 | heap order holds from the hole down after sinking and sifting back up, over full and partial chunks |
| `Gheap.RestoreAfterIncrease` | external/gheap/gheap.h:467-486 | an item that grew is put right: heap order, a permutation, and the root stays when the item does not outrank it |
| `Gheap.PushHeap` | external/gheap/gheap.h:410-427 | the item behind a heap joins it: heap order and a permutation |
| `Gheap.PopHeap` | external/gheap/gheap.h:429-465 | the maximum goes behind the heap, the rest is a heap, nothing is lost and all back-pointers follow |
| `Gheap.MakeHeap` | external/gheap/gheap.h:385-408 | any array becomes a heap by permutation, leaves being skipped only where they are leaves |
| `Gheap.SortHeap` | external/gheap/gheap.h:442-448 | a heap becomes ascending by permutation |
| `Gheap.HeapSort` | external/gheap/gheap.h:385-448 | make_heap then sort_heap sorts any array under any strict weak ordering |
| `Gheap.RootIsMax` | external/gheap/gheap.h:265-349 | in an ordered heap nothing outranks the root |
| `Gheap.RankExists` | external/gheap/gheap.h:26-30 | every strict weak ordering is represented by a numeric rank, so reasoning with ranks loses nothing |
| `Dijkstra.Search.MkHeap` | common/dijkstra.c:79-114 | every slot is filled exactly once, the start in slot 0, and heap and heapptr are mutually inverse |
| `Dijkstra.Search.Improve` | common/dijkstra.c:249-266 | a better offer is stored, the heap reordered, and the node in hand stays at the root |
| `Dijkstra.Search.Relax` | common/dijkstra.c:224-267 | one channel is offered to its far end; settled records and the root do not change |
| `Dijkstra.Search.Expand` | common/dijkstra.c:212-270 | the node popped is the node expanded, records of settled nodes never change again, and the search invariant (including settling in score order) is kept |
| `Dijkstra.Search.Run` | common/dijkstra.c:212-270 | a finished search: exactly the reached nodes are settled, records form a tree towards the start in score order, and no edge offers anything better |
| `Dijkstra.FindPaths` | common/dijkstra.c:134-273 | the same for the whole call, for every graph and every path score that never drops along an edge |
| `Dijkstra.RecordIsWalk` | common/dijkstra.c:212-270 | every record of a reached node is where following offers from the start leads, in as many steps as its distance |
| `RouteScore.ShorterIsEdgeMonotone` | common/route.c:52-58 | the hop-count score never drops along an edge, whatever fees and risks are |
| `RouteScore.ShorterOrder` | common/route.c:51-58 | one score is below another exactly when its distance is, or among equal distances its cost plus risk, as far as 32 bits tell |
| `RouteScore.CheaperOrder` | common/route.c:60-67 | the other way round: cost plus risk first, then distance |
| `RouteScore.CheaperEdge` | common/route.c:42-67 | where neither cost nor risk drops, the cost score does not drop if and only if their 64-bit sum does not wrap there to below what it was and below the cap |
| `RouteScore.CheaperIsEdgeMonotone` | common/route.c:42-67 | with a risk price that grows with cost and delay, and delays that do not wrap, a search by cost never sees a score drop if and only if no edge it can come to wraps so |
| `RouteScore.ShortDelaysFit` | common/dijkstra.c:250-260 | total_delay does not wrap when all nodes times the largest delay stay within 32 bits |
| `RouteScore.FewNodesFit` | common/dijkstra.c:250-260 | 20 bits per hop and up to 4096 nodes: total_delay does not wrap |
| `RouteScore.RiskPriceGrows` | common/dijkstra.c:116-130 | the risk price grows with the amount and the delay, saturation included |
| `RouteScore.YearlyRisk` | common/dijkstra.c:116-130 | a riskfactor is percent per year: 100 of it over a year of blocks is the amount itself, any other its share |
| `RouteScore.CheaperCanDrop` | common/route.c:42-67 | it can drop: a line of six channels, an amount and a riskfactor at which risk_price saturates on the sixth |
| `Route.DistanceIsMinimumHops` | common/route.c:42-58 | with the hop-count score, a channel test blind to amounts and no fee overflow, a node is reached iff a path exists and its distance is the least number of hops |
| `BestPath.CostBreaksTies` | common/route.c:51-58 | with the hop-count score and no riskfactor: no usable walk is shorter than what was found, and none as short costs less, as far as 32 bits tell |
| `BestPath.CostIsMinimum` | common/route.c:60-67 | with the cost score, no riskfactor and a channel test blind to amounts: no usable walk costs less than what was found, none that costs the same is shorter, and whatever costs less than 32 bits hold is reached |
| `Route.DijkstraToHops` | common/route.c:75-134 | NULL iff unreached; otherwise exactly distance hops, each hop amount and delay what the search stored at its far node, fees compounding exactly, abort() never reached |
| `Route.RouteFromDijkstra` | common/route.c:136-149 | the same for the whole route from any source |
| `Amount.AddOverflowsExact` | common/overflows.h:10-13 | the wrap test detects exactly the sums that do not fit 64 bits |
| `Amount.MulOverflowsExact` | common/overflows.h:15-23 | the division test detects exactly the products that do not fit 64 bits |
| `Amount.AddFeeExact` | common/amount.c:497-529 | adding a fee succeeds iff nothing overflows and then adds the exact BOLT #7 fee |
| `Amount.AddFeeMonotone` | common/amount.c:497-529 | a smaller amount can pay whenever a larger one can, and pays no more |
| `Amount.AddFeeStrict` | common/amount.c:497-529 | and what has to be sent grows strictly with the amount |
| `AmountText.FromNumber` | common/amount.c:130-152 | succeeds iff there is a digit and the scaled number fits 64 bits, in spite of the overflow tests being made step by step |
| `AmountText.FromNumbers` | common/amount.c:154-171 | succeeds iff both parts have digits, the decimals are not too many and the sum fits |
| `AmountText.BreakupExactly` | common/amount.c:83-128 | the parts are the one way to make up the string, or the string up to a zero byte, of maximal runs of digits, a point and a suffix |
| `AmountText.BreakupFails` | common/amount.c:83-128 | it fails exactly on the empty string and when nothing follows the point |
| `AmountText.BreakupStr` | common/amount.c:83-128 | the code finds exactly those parts |
| `AmountText.ParseMsat` | common/amount.c:179-204 | the value by unit: msat, sat, btc with up to 11 decimals, or none |
| `AmountText.ParseSat` | common/amount.c:213-245 | the value by unit in satoshi |
| `AmountText.PlainNumber` | common/amount.c:167-205 | a string of digits alone is its number in either unit, unless that does not fit |
| `AmountText.Refused` | common/amount.c:167-247 | no digit in front, decimals without btc, or another unit: refused in both |
| `AmountText.DecimalsOfBtc` | common/amount.c:195-201 | eleven decimals of a bitcoin are millisatoshi, eight are satoshi, and more are refused |
| `AmountText.MsatInSatExactly` | common/amount.c:227-235 | millisatoshi are read as the satoshi they make, or refused if they make none, if and only if the digits are not 000 and do not start with a zero without making whole satoshi |
| `AmountText.LeadingZeroMisread` | common/amount.c:227-235 | 05msat is read as five satoshi |
| `AmountText.MsatRoundTrip` | common/amount.c:46-49 | every msat string written reads back as the amount |
| `AmountText.MsatInSat` | common/amount.c:227-235 | every msat string written reads as satoshi exactly when it is a whole number of them |
| `AmountText.SatRoundTrip` | common/amount.c:71-74 | every sat string reads back as itself, and as a thousand times itself in msat unless that overflows |
| `AmountText.BtcRoundTrip` | common/amount.c:33-69 | every btc string with unit reads back as the amount, in both units |
| `Htable.EncodeRoundTrip` | ccan/ccan/htable/htable.c:42-77 | raw pointer, extra hash bits and perfect bit are all read back from a table word |
| `Htable.GiveBackWord` | ccan/ccan/htable/htable.c:284-327 | giving mask bits back turns the old encoding of every stored pointer into its encoding under the smaller mask |
| `Htable.GiveBackMasks` | ccan/ccan/htable/htable.c:284-327 | after giving bits back the new pointer fits the common bits |
| `Htable.Htable.Val` | ccan/ccan/htable/htable.c:145-159 | the probe passes over nothing that matches and ends, since an empty bucket remains |
| `Htable.Htable.FirstVal` | ccan/ccan/htable/htable.c:161-166 | the first match from the home bucket |
| `Htable.Htable.NextVal` | ccan/ccan/htable/htable.c:168-173 | the next match after the current bucket |
| `Htable.Htable.Visit` | ccan/ccan/htable/htable.c:161-173 | a firstval/nextval walk meets every stored pointer with the hash, across tombstones and wrap-around |
| `Htable.Htable.HtAdd` | ccan/ccan/htable/htable.c:205-217 | the pointer goes into the first bucket without a pointer on its probe path |
| `Htable.Htable.DoubleTable` | ccan/ccan/htable/htable.c:219-256 | doubling keeps what is stored, and how often |
| `Htable.Htable.RehashTable` | ccan/ccan/htable/htable.c:258-281 | the in-place rehash removes all tombstones and keeps what is stored |
| `Htable.Htable.UpdateCommon` | ccan/ccan/htable/htable.c:284-327 | slots are untouched (frame) while words are rewritten for the new mask, and the new pointer becomes storable; every encoding stays above 1 |
| `Htable.Htable.Add` | ccan/ccan/htable/htable.c:329-342 | one more copy of the pointer, nothing else changes, through doubling, rehash and mask changes |
| `Htable.Htable.Find` | ccan/ccan/htable/htable.c:344-356 | found iff stored |
| `Htable.Htable.Del` | ccan/ccan/htable/htable.c:344-356 | one copy less iff it was stored |
| `Htable.Htable.DelVal` | ccan/ccan/htable/htable.c:358-366 | the entry becomes a tombstone |
| `Htable.Htable.Run` | ccan/ccan/htable/htable.c:329-366 | after every run of adds and deletes the table stores the bag the same run leaves |
| `Htable.SharedTopLasts` | ccan/ccan/htable/htable.c:284-300 | pointers with the same highest bit above bit 1 can always be stored, whatever their hashes |
| `Htable.IndexLasts` | common/gossmap.c:186-207 | an array index plus one can always be stored when its folded hash has a one above bit 32 |
| `Htable.PointerOne` | ccan/ccan/htable/htable.c:284-300 | the pointer 1 is read as deleted exactly when it is off its home bucket, or there is no perfect bit, and no hash bit is left under the mask |
| `Htable.TwoOrThreeIsMissed` | ccan/ccan/htable/htable.c:145-166 | the pointers 2 and 3, added first, are missed in their home bucket, the bit they show being the perfect bit |
| `Asort.Median` | ccan/ccan/asort/asort.c:128-138 | low, middle and high in order, within the partition |
| `Asort.Partition` | ccan/ccan/asort/asort.c:140-171 | everything left ranks no higher than everything right, both parts smaller, the scans staying inside |
| `Asort.StackDepth` | ccan/ccan/asort/asort.c:173-202 | a partition at stack depth k is halved k times, so k stays below the 64 entries |
| `Asort.QuickPhase` | ccan/ccan/asort/asort.c:108-203 | after it the minimum is among the first five elements |
| `Asort.InsertOne` | ccan/ccan/asort/asort.c:233-255 | the unguarded loop stops at the minimum at the left end, and the sorted part grows by one |
| `Asort.InsertionPhase` | ccan/ccan/asort/asort.c:213-256 | a sorted permutation |
| `Asort.RankExists` | ccan/ccan/asort/asort.c:96-98 | every admissible comparison is represented by a numeric rank |
| `Asort.Asort` | ccan/ccan/asort/asort.c:95-257 | a sorted permutation, for every array and every total preorder, and also for comparisons that call lone elements less than themselves |
| `Arena.AddedIsValid` | common/gossmap.c:400-444 | adding a channel keeps adjacency (listed once at each end, nothing else listed) and both indexes exact |
| `Arena.RemovedIsValid` | common/gossmap.c:349-378 | so does removing one, the last channel taking its node out of the index |
| `Arena.NodesAreEnds` | common/gossmap.c:949-959 | the node ids known are exactly the ends of the listed channels |
| `Gossmap.Gossmap.constructor` | common/gossmap.c:655-671 | both arenas start as one free list |
| `Gossmap.Gossmap.NewNode` | common/gossmap.c:251-276 | takes a free slot, doubling a full arena; free list and live entries still split it exactly |
| `Gossmap.Gossmap.NewChan` | common/gossmap.c:311-336 | the same for channels |
| `Gossmap.Gossmap.AddChannel` | common/gossmap.c:400-444 | the exact new graph: record, both adjacency lists, both indexes; known ids keep their nodes; all invariants kept |
| `Gossmap.Gossmap.RemoveChanFromNode` | common/gossmap.c:349-366 | the list without the channel in order, or the node freed and unindexed |
| `Gossmap.Gossmap.RemoveChan` | common/gossmap.c:368-378 | the exact new graph and all invariants |
| `Gossmap.Gossmap.RemoveNode` | common/gossmap.c:380-384 | exactly the channels of the node go; every other record and the order of every other list stay |
| `Gossmap.Gossmap.UpdateChannel` | common/gossmap.c:461-518 | one half changes, and shows the update field by field: delay, offset, fees as far as their bit-fields hold them, limits as the nearest compact values outside, enabled iff not disabled and the fees fit; the other half and every other channel stay |
| `Gossmap.Gossmap.DeleteMsg` | common/gossmap.c:520-534 | that channel goes, unknown ones are ignored |
| `Gossmap.Gossmap.NodeAnnouncement` | common/gossmap.c:558-569 | only the offset of that node changes |
| `Gossmap.Gossmap.CatchUp` | common/gossmap.c:586-634 | after any run of records the channel records known, with their offsets, fees and limits, are what the records say in turn; all invariants hold and rejected updates are counted; every known node has the offset of its last announcement since it became known; and each half of a known channel shows the last update for it since its announcement, nothing if there was none, or what it had before |
| `PathSearch.GraphIsWellFormed` | common/gossmap.c:994-1023 | a valid arena is a graph dijkstra_ can search |
| `PathSearch.NumNodesIsLiveCount` | common/gossmap.c:1025-1037 | the size of the node index is the number of live arena entries, so mkheap fills its array |
| `PathSearch.UpdatedCanCarry` | common/route.c:16-39 | after a fitting update the channel carries every amount within the true limits that 16 bits can express |
| `PathSearch.CarriesExactly` | common/route.c:16-39 | a channel with both halves updated carries an amount if and only if neither update was disabled or too large to fit, the one for the direction has an offset, and the amount is within its limits as rounded |
| `PathSearch.ShortestRoute` | common/route.c:30-149 | on a gossmap by hop count: no route iff unreached, and the channel of every hop is enabled both ways, has an update for the direction, and stored limits around the amount |
| `PathSearch.CheapestIsMonotone` | common/route.c:30-67 | over channels that carry their amounts, with a small riskfactor and delays that fit, the cost score with risk_price never drops |
| `PathSearch.CheapestRoute` | common/route.c:30-149 | the same for a route by cost with risk_price |
| `Localmods.RestoreUndoes` | common/gossmap.c:870-910 | restoring what was saved undoes overwriting, and neither moves a channel end |
| `Localmods.Localmods.AddChan` | common/gossmap.c:741-798 | false and nothing done for an scid already named; otherwise one modification with its announcement |
| `Localmods.Localmods.UpdateChan` | common/gossmap.c:801-845 | exactly that half of that modification changes (a new one if there was none), cut to its bit-fields, and whether it fitted is told |
| `Localmods.Apply` | common/gossmap.c:848-883 | the graph is the old one with the modifications laid over it: every named channel shows its updates and saves what they replaced, and is known afterwards iff it was known or is brought along; one brought along is private, announced where the modification says, and has no update on a half that is not updated |
| `Localmods.Remove` | common/gossmap.c:885-914 | every channel record, adjacency order, node index and scid index of the old graph is back, and no local channel or node is left |
| `Localmods.ApplyThenRemove` | common/gossmap.c:848-914 | the two together, given that each update-only modification names a known channel |
| `Fp16.RoundsDown` | common/fp16.c:6-40 | the greatest representable value not above the input |
| `Fp16.RoundsUp` | common/fp16.c:6-40 | the least representable value not below it; the maximum exactly when there is none |
| `Fp16.CapacityIsConservative` | common/gossmap.c:1075-1086 | every amount within the true limits and up to 2047*2^31 passes the compact test, and nothing further off than rounding does |
| `Intmap.SplitAdds` | ccan/ccan/intmap/intmap.c:53-80 | the new node over a subtree separates the new index from all its keys |
| `Intmap.Intmap.Get` | ccan/ccan/intmap/intmap.c:35-51 | the value of the map |
| `Intmap.Intmap.Add` | ccan/ccan/intmap/intmap.c:82-114 | the map with one entry more, or false iff it is there |
| `Intmap.Intmap.Del` | ccan/ccan/intmap/intmap.c:116-157 | the map with the entry gone, and its value |
| `Intmap.Intmap.FirstEntry` | ccan/ccan/intmap/intmap.c:159-175 | the least index |
| `Intmap.Intmap.LastEntry` | ccan/ccan/intmap/intmap.c:291-307 | the greatest index |
| `Intmap.Intmap.After` | ccan/ccan/intmap/intmap.c:177-232 | the least index above any given one, present or not, wrap at the maximum included |
| `Intmap.Intmap.Before` | ccan/ccan/intmap/intmap.c:234-289 | the greatest index below any given one, present or not, wrap at zero included |
| `Intmap.PrefixOrder` | ccan/ccan/intmap/intmap.c:197-205 | the shifted comparison of prefixes decides the order against every key of a node |
| `Intmap.IterationAscends` | ccan/ccan/intmap/intmap.c:325-339 | iteration is strictly ascending and visits exactly the entries |
| `CritTree.Iterate` | ccan/ccan/intmap/intmap.c:325-339 | the handler is called in order until it says stop |
| `Strmap.ClosestIsKey` | ccan/ccan/strmap/strmap.c:20-36 | the closest entry is the string itself iff it is a member |
| `Strmap.Difference` | ccan/ccan/strmap/strmap.c:72-82 | the first bit in which two strings differ, none iff they are equal |
| `Strmap.SplitAdds` | ccan/ccan/strmap/strmap.c:85-121 | the new node separates the new string from the subtree it is put over |
| `Strmap.Strmap.Get` | ccan/ccan/strmap/strmap.c:38-50 | the value of the map |
| `Strmap.Strmap.Add` | ccan/ccan/strmap/strmap.c:52-122 | the map with one entry more, or false iff it is there |
| `Strmap.Strmap.Del` | ccan/ccan/strmap/strmap.c:124-174 | the map with the entry gone, and its value |
| `Strmap.BitDecides` | ccan/ccan/strmap/strmap.c:20-36 | the first differing bit decides the order by unsigned bytes |
| `Strmap.IterationAscends` | ccan/ccan/strmap/strmap.c:176-196 | iteration is in order of unsigned bytes and visits exactly the entries |
| `Strmap.Strmap.Prefix` | ccan/ccan/strmap/strmap.c:198-231 | a subtree holding exactly the members with the prefix |
| `Crc32c.Chaining` | ccan/ccan/crc32c/crc32c.c:292-324 | one pass over two pieces is two passes |
| `Crc32c.Combine` | ccan/ccan/crc32c/crc32c.c:185-203 | the checksum of a concatenation from the parts: shift by zeros and xor |
| `CrcSerial.CrcIsStandard` | ccan/ccan/crc32c/crc32c.c:50-51 | the checksum is the standard one: division by 0x11EDC6F41 of the message with the bits of each byte lowest first, from all ones, complemented and reversed |
| `Crc32c.FeedIsLoad` | ccan/ccan/crc32c/crc32c.c:304-312 | feeding bytes one by one is xoring them in as one word and feeding zeros |
| `Crc32c.InitTables` | ccan/ccan/crc32c/crc32c.c:267-288 | table k holds each byte followed by k more zero bytes |
| `Crc32c.EightBytes` | ccan/ccan/crc32c/crc32c.c:300-317 | eight table lookups are eight bytes fed bit by bit |
| `Crc32c.SwLittle` | ccan/ccan/crc32c/crc32c.c:292-324 | for every buffer, address and start value, the bit-at-a-time checksum |
| `Crc32c.MatrixTimes` | ccan/ccan/crc32c/crc32c.c:61-70 | the loop over the bits is the matrix product |
| `Crc32c.TimesIsSteps` | ccan/ccan/crc32c/crc32c.c:61-70 | a matrix whose rows are the operator on unit words applies the operator |
| `Crc32c.MatrixSquare` | ccan/ccan/crc32c/crc32c.c:74-77 | squaring doubles the zeros |
| `Crc32c.ZerosOp` | ccan/ccan/crc32c/crc32c.c:84-116 | the operator for the largest power of two not above the length, in bytes |
| `Crc32c.Zeros` | ccan/ccan/crc32c/crc32c.c:120-130 | its four byte tables |
| `Crc32c.ShiftIsSteps` | ccan/ccan/crc32c/crc32c.c:133-136 | shifting through the tables is feeding the zeros |
| `Crc32c.ThreeWay` | ccan/ccan/crc32c/crc32c.c:185-203 | three blocks fed side by side and joined are the three in a row |
| `Crc32c.InitHw` | ccan/ccan/crc32c/crc32c.c:154-158 | the tables for both block sizes |
| `Crc32c.Hw` | ccan/ccan/crc32c/crc32c.c:161-247 | for every buffer, address and start value, the bit-at-a-time checksum |
| `Bigsize.GetOfPut` | common/bigsize.c:23-102 | decoding undoes encoding whatever follows |
| `Bigsize.PutOfGet` | common/bigsize.c:53-102 | only the shortest form is accepted |
| `Bigsize.GetFails` | common/bigsize.c:53-102 | decoding fails iff no encoding is a prefix |
| `Bigsize.PutOrder` | common/bigsize.c:23-54 | encodings compare byte by byte, the first difference deciding, exactly as the numbers do |
| `Bigsize.PutBytes` | common/bigsize.c:23-54 | the bytes themselves, most significant first, under fd, fe and ff |
| `Tlvstream.EncodeThenDecode` | wire/tlvstream.c:131-215 | decoding an encoded stream gives its fields back |
| `Tlvstream.DecodeThenEncode` | wire/tlvstream.c:131-215 | every accepted stream is the encoding of its fields |
| `Tlvstream.DecodeExactly` | wire/tlvstream.c:136-207 | a stream is accepted as these fields if and only if it is their encoding, each carries the last record type of its number, and the decoder of a known one takes its value to the last byte |
| `Tlvstream.FieldLayout` | wire/tlvstream.c:25-36 | a field on the wire is its type, its length and its value, each minimally encoded, in this order |
| `Tlvstream.FromwireTlv` | wire/tlvstream.c:131-215 | the loop decodes field by field, failing on any malformed one |
| `Tlvstream.FieldsValid` | wire/tlvstream.c:217-272 | true iff types are strictly increasing and each is odd, known or extra; otherwise the first offender |
| `Tlvstream.TowireRaw` | wire/tlvstream.c:12-37 | fields sorted by type in place and their encoding appended; fields already in order stay |
| `Tlvstream.SortFew` | ccan/ccan/asort/asort.c:212-257 | with tlv_field_cmp and up to four fields, of any types, the unguarded insertion stays inside the array if and only if of two fields of the least type one is in second place, and then sorts |
| `Tlvstream.RepeatedLeast` | wire/tlvstream.c:12-16 | three fields whose outer ones share the least type leave it |
| `Tlvstream.MakeFields` | wire/tlvstream.c:302-324 | the fields present, in type order |
| `Tlvstream.PresentExactly` | wire/tlvstream.c:302-324 | a record's fields are exactly those its types write |
| `Tlvstream.TowireTlv` | wire/tlvstream.c:274-300 | the encoding of the fields present |
| `Tlvstream.TowireTwice` | wire/tlvstream.c:274-324 | writing a record directly or through its fields gives the same bytes |
| `Tlvstream.ReencodeRaw` | wire/tlvstream.c:18-272 | a valid stream is reproduced byte for byte |
| `Tlvstream.WriteThenRead` | wire/tlvstream.c:18-215 | fields written in any order are read back in type order |
| `Jsmn.Tokenizer.ParsePrimitive` | external/jsmn/jsmn.h:135-188 | one token and the end of the primitive, or the state as it was |
| `Jsmn.Tokenizer.ParseString` | external/jsmn/jsmn.h:193-263 | one token and the closing quote, or the state as it was |
| `Jsmn.Tokenizer.Round` | external/jsmn/jsmn.h:277-440 | one character or token of the input, strict and not |
| `Jsmn.Tokenizer.Parse` | external/jsmn/jsmn.h:268-453 | the whole call, step by step |
| `Jsmn.Resume` | external/jsmn/jsmn.h:268-453 | running out of tokens and resuming with more is running with more from the start |
| `Jsmn.StepShaped` | external/jsmn/jsmn.h:277-440 | every step keeps the tokens a forest in preorder: super and open tokens lie on the path to the last one |
| `Jsmn.ShapedIsBuilt` | common/json.c:621-625 | so json_next stays among the allocated tokens even before validation |
| `Jsmn.ParseGrowing` | common/json.c:593-610 | grow-and-retry gives what one call with any sufficient room gives |
| `Jsmn.StrictParents` | external/jsmn/jsmn.h:290-300 | under JSMN_STRICT only strings become members of an object, and a word behind a key is the first thing there |
| `JsonInput.ValidateOutput` | common/json.c:564-574 | true iff the tokens are complete data one after another |
| `JsonInput.ParseInput` | common/json.c:592-635 | incomplete iff nothing is rejected and the first token is missing or open; complete iff it is closed and starts a valid JSON datum, and then exactly the tokens of that datum and a terminator |
| `JsonInput.ParseMore` | common/json.c:592-635 | the same for a parser that an earlier call left underway |
| `JsonInput.Continue` | external/jsmn/jsmn.h:268-453 | for any text cut anywhere, going on with the whole of it from where the first call stopped is one call on the whole of it |
| `JsonInput.ReadPieces` | plugins/libplugin.c:696-710 | reading in any pieces, each answer is that of one call on all read so far |
| `JsonInput.RunPrefix` | external/jsmn/jsmn.h:268-453 | on a part of any text nothing is rejected that is not rejected in the whole, and the first token is closed only where it is in the whole |
| `JsonText.DocumentIsTokenized` | external/jsmn/jsmn.h:135-453 | every text of the JSON grammar, with any white space, is tokenized to exactly the preorder tokens of its tree, each at its place |
| `JsonText.SpelledIsDatum` | common/json.c:423-519 | that tree passes validation if its strings are UTF-8 |
| `JsonText.ParseDocument` | common/json.c:593-635 | so json_parse_input completes on it with these tokens and a terminator |
| `JsonSound.PrefixIncomplete` | external/jsmn/jsmn.h:166-171 | every JSON text cut off before its end, be it in a string, an escape, a word or between tokens, is JSMN_ERROR_PART with the root open or missing |
| `JsonSound.ParseCutOff` | common/json.c:611-616 | so json_parse_input finds it incomplete |
| `JsonSound.RunMarks` | external/jsmn/jsmn.h:135-453 | on any text at all, every token left marks matching brackets, a whole string between quotes, or a whole word |
| `JsonSound.RunAccounts` | external/jsmn/jsmn.h:268-453 | and every character passed is white space, a colon, a comma or part of a token, so nothing stray is accepted |
| `JsonPrint.PrintThenTokenize` | external/jsmn/jsmn.h:135-453 | the text of any JSON value is tokenized to a tree that stands for that value |
| `JsonPrint.SpelledIsGood` | external/jsmn/jsmn.h:135-453 | and every such text stands for a value that can be printed |
| `JsonTree.BuildIsFlat` | common/json.c:292-301 | what the sizes delimit is a tree written in preorder |
| `JsonTree.FlatIsBuilt` | common/json.c:292-301 | and every tree so written is found again |
| `JsonTree.Next` | common/json.c:292-301 | the token behind the tree, the same place where the validator stops |
| `JsonTree.ValidateDatum` | common/json.c:423-480 | valid iff a JSON datum lies there |
| `JsonTree.ValidateKeyvalue` | common/json.c:483-519 | valid iff a key with one value lies there |
| `JsonEqual.GetMember` | common/json.c:303-317 | the value behind the first key with that name, none iff there is none |
| `JsonDoc.EqualDecides` | plugins/payz/json_equal.c:4-67 | on data without repeated keys, equality of JSON values with objects as finite maps |
| `JsonDoc.EqualIsEquivalence` | plugins/payz/json_equal.c:4-67 | hence reflexive, symmetric and transitive though only one side is looked up |
| `JsonDoc.SymmetricExactly` | plugins/payz/json_equal.c:48-61 | with keys that may repeat: it compares a value with every value alike in both directions if and only if no object in it has two members |
| `JsonPrint.SymmetricTexts` | plugins/payz/json_equal.c:48-61 | the same for a JSON text against all JSON texts |
| `JsonPrint.RepeatedKeysBreakSymmetry` | plugins/payz/json_equal.c:48-61 | the two shortest texts of that kind, with their tokens |
| `JsonEqual.JsonEqual` | plugins/payz/json_equal.c:4-67 | the code on the tokens of any two data, repeated keys included, compares the values they stand for |
| `JsonPrint.CompareTexts` | plugins/payz/json_equal.c:4-67 | parsing two JSON texts and comparing the tokens compares what the texts say |
| `JsonRemove.CutTree` | common/json.c:687-718 | cutting tokens and lowering one size is removing children from the tree, wherever the node lies |
| `JsonRemove.TokRemove` | common/json.c:687-718 | the array then holds the tokens of the pruned tree, and behind them what stood there before: a lone terminator gives way to a token of the old tree |

## Left out

- Score optimality for `route_score_cheaper` with a riskfactor: the risk term breaks the principle of optimality; proved are the exact condition for its edges not to drop, and optimality without risk.
- Routes as route_hop records: scid, node id and style of a hop stand for the channel and node index that the model keeps.
- Floating point: the product in `risk_price` and `amount_msat_scale` is exact here, so its rounding is not captured.
- RouteScore.CheaperIsEdgeMonotone: not stated for delays that wrap, where the risk may drop along an edge.
- PathSearch.CheapestRoute: asks for delays and a riskfactor within the bounds that keep the score from dropping.
- Memory-mapped access, refresh and `reopen_store` of the gossip store, and the byte layout of its messages.
- Gossmap.Gossmap.AddChannel: not stated for an scid that is indexed already or for a channel from a node to itself, which the store does not hold.
- Gossmap.Gossmap.UpdateChannel: an update for an unknown channel ends the program in the source and is excluded here.
- Localmods.Localmods.AddChan: not stated for two equal node ids, which applying would turn into a channel from a node to itself.
- Localmods.Remove: not stated for an update-only modification of an unknown channel, where the source follows a null pointer.
- Htable.Htable.Add: not stated for pointers whose word may come to look deleted, nor for 2 or 3 as the first pointer, which are then lost.
- Tlvstream.TowireRaw: not stated for repeated types; beyond four fields asort partitions first, and its scans then may leave the array too.
- Memory exhaustion in htable, intmap, strmap and the token array; `htable_pick_`, `htable_check`, `htable_copy_` and sized initialisation.
- gheap_remove_from_heap and gheap_restore_heap_after_item_decrease, which nothing here calls.
- Intmap.Intmap.Add: trees are values written at a path, so sharing and freeing of nodes are not captured; the same holds for Strmap.
- The signed-integer offset of `sintmap`, and `clear`, which only frees.
- The big-endian software CRC, the inline assembly itself (its instructions are taken as feeding bytes) and the once-only table initialisation.
- `tlvstream_set_raw`, which leaves the meta of a new field unset, and the typed setters and getters on top of it; the effect of a known type's decoder on its record.
- JsonInput.Continue: stated with JSMN_STRICT, as the program is built; without it a word cut in two becomes two tokens.
- JSON scalars: numbers, escapes and UTF-8 checking; `json_scan` and the other readers of tokens.
- The plugin's own systems, its I/O and everything built on libplugin.
