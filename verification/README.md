# Verified models of simulator support code

A Dafny project that models the data structures, protocols and generators that the
simulator's support code rests on, and proves what they promise over all inputs and all
runs. Each module follows one source component.

| module | component |
|---|---|
| `KeyBits`, `TrieShape`, `PrefixTrie` | the path-compressed prefix trie (`base/trie.hh`) |
| `BitOps`, `AddressRange`, `AddressRangeMap` | interleaved and hashed address ranges, address decoding (`base/addr_range.hh`, `base/addr_range_map.hh`) |
| `HistSpec`, `Histogram` | the self-resizing histogram (`base/statistics.cc`, `base/statistics.hh`) |
| `TickAverage` | the per-tick average (`base/statistics.hh`) |
| `ThreadBarrier` | the reusable barrier (`base/barrier.hh`) |
| `OperandSlots`, `DecodeDefaults` | operand numbering and default cases of the ISA description compiler (`arch/isa_parser.py`) |
| `AnnotateQueue` | annotated byte queues (`base/cp_annotate.cc`) |
| `CircularBuffer` | the ring buffer and FIFO (`base/circlebuf.hh`) |
| `Chunks` | the chunk generator (`base/chunk_generator.hh`) |
| `GdbPacket`, `RemoteGdb` | GDB packet framing (`base/remote_gdb.cc`) |

Heap objects are classes. Their ghost fields hold the abstract value or the whole history,
and every method states the new abstract value. Clocks, sockets and checkpoint files are
parameters or byte sequences. Panics and fatal errors are result values (`Wrappers`); sizes of
sets are counted in `FiniteSets`.

## Main results

- A trie run by any sequence of insert, remove and clear refines a plain map from prefixes
  to values (`PrefixTrie.Run`). lookup returns the value of the *shortest* stored prefix of
  the key. remove recurs at most once, and n values need at most 2n - 1 nodes below the head.
- Point lookup in the address map equals a linear scan if and only if the entry sought is
  not *hidden*: it is not the first entry, it starts at the address and it has a nonzero match
  value. Nothing is hidden when all groups start in stripe 0. `HiddenExample` is a map where
  lookup misses. Among plain ranges, inserting a plain range keeps the map well formed if and
  only if an overlap, if there is one, is with the first entry or with one that starts at or
  before the new range. `OverlapAccepted` is an insert that breaks the map. A range compatible
  with the whole map is refused if and only if it is a stripe whose `size()` is 1 and whose
  start is in a stripe of its own group that find looks at (`StripeRefused`).
- The merging constructor yields exactly the union of its stripes if and only if every
  stripe number met fits the constructor's one-byte counter. With up to 8 interleaving bits it
  always does; an unhashed interval of at least one round needs that (`MergedByBits`).
  `NineBitsMissHalf` shows the failure with 9 bits.
- An unhashed stripe of whole rounds has exactly `size()` members if and only if the
  interval is not the full address space, where the 64-bit length wraps to zero
  (`FullSpaceSize`). The same holds for a hashed stripe: wherever the interval starts if its
  hash bits lie below the interleaving bits, and for an interval that starts at a multiple of a
  round if they lie above. If such an interval starts at offset s in a round, it holds if and
  only if the stripe takes as many of the first s addresses of the first round as of the last
  (`HashedShiftedSize`, `ShiftedExample`).
- Fed any non-negative samples, the histogram's buckets are exact, its bucket size is the
  least power of two that fits, and its whole state, with the sums of values, squares and
  logarithms, is independent of the order of the samples.
  `add` acts as if both streams had been fed to one histogram. For samples of any sign the
  bounds stay consistent and every sample is in a bucket or was dropped by a fold from the
  lowest bucket, which happens only with an odd number of buckets (`DropsFirst`). `Sample` says
  exactly when and how much; unless the number of buckets is 3 modulo 4 a whole run loses what
  the lowest bucket held at the first negative sample, and nothing else (`FedLossOnce`).
- Every interleaving of barrier steps, with spurious wake-ups, keeps the arrival count,
  releases nobody early, returns true once per generation and loses no wake-up.
- Generated register accesses hit the slots of their own operands under all truth
  assignments of the predicates, if and only if either no operand is predicated or the
  numbered operands of the template, in the template's order, are the first numbered operands
  of the list, in the list's order. The code compiles if and only if, besides, a predicated
  list is not used without any predicated operand. `LeftOutMisses`, `SwappedMisses` and
  `UndeclaredIndex` are the three ways to fail.
- Iterating over a region cuts it exactly at the block boundaries, for every region within the
  address space, also where the last boundary is its end and wraps to zero.
- The parser's default stack computes lexical inheritance and parsing succeeds exactly on
  acceptable trees. Every generated switch has exactly one default label if and only if no case
  list of the block, at any depth, joins `default` with constants, which the grammar allows
  but the check for two defaults does not count (`TwoDefaultLabels`).
- recv answers each damaged frame with '-' and then accepts the frame that send made. It
  delivers the payload if and only if a payload shorter than two bytes does not meet a
  colon that an earlier packet left in the third byte of the buffer (`StaleColon`). This
  includes the call the program makes, with maxlen the size of the whole buffer; the
  terminator then leaves the buffer if and only if, after damaged frames, a packet goes on for
  maxlen bytes (`OverrunExample`).

The code is followed where comments leave room: `base/trie.hh:151-157` promises the first
matching handle, and in the code that is the one with the shortest prefix, not the longest.

## Model

| member | source | states |
|---|---|---|
| `KeyBits.ExtendMaskAddsOneBit` | base/trie.hh:143-149 | extending a prefix mask adds exactly one bit and stops at full width |
| `KeyBits.AndOnes` | base/trie.hh:61-67 | masking a key keeps exactly its first bits, so a stored key is a padded prefix |
| `KeyBits.OnesContained` | base/trie.hh:127-127 | the mask test of goesAfter compares prefix lengths |
| `KeyBits.MatchesIsPrefix` | base/trie.hh:50-54 | a node matches a key if and only if its prefix begins the key |
| `TrieShape.PrefixIsAbove` | base/trie.hh:185-260 | in a well-linked trie the order of prefixes is the order of the tree: a node whose prefix begins another's lies above it |
| `TrieShape.PrefixesUnique` | base/trie.hh:185-260 | distinct nodes stand for distinct prefixes |
| `TrieShape.LookupStep` | base/trie.hh:163-171 | stepping to a matching kid never loses a stored prefix of the key |
| `TrieShape.AttachLinked` | base/trie.hh:214-220 | hanging a new leaf in a free slot keeps masks extending, kids differing in the next bit and parents consistent |
| `TrieShape.SplitLinked` | base/trie.hh:238-243 | a new node on an edge keeps the tree invariant |
| `TrieShape.SpliceLinked` | base/trie.hh:295-311 | splicing a node out, its only kid moving up, keeps the tree invariant |
| `TrieShape.SpliceCompact` | base/trie.hh:295-316 | splicing can leave only the parent with too few kids, and not even that if a kid moved up |
| `TrieShape.NodeCount` | base/trie.hh:313-316 | a compact trie with values has fewer than twice as many nodes, head aside, as values |
| `PrefixTrie.WalkLeg` | base/trie.hh:222-232 | the bit walk ends at the mask of the longest common prefix of new key and kid |
| `PrefixTrie.Trie.constructor` | base/trie.hh:108-109 | a new trie is valid and stands for the empty map |
| `PrefixTrie.Trie.LookupHandle` | base/trie.hh:158-175 | the handle of the shortest stored prefix of the key, or null exactly when none matches |
| `PrefixTrie.Trie.Lookup` | base/trie.hh:267-275 | the value of the shortest stored prefix of the key, or none exactly when none matches |
| `PrefixTrie.Trie.GoesAfterIsPrefix` | base/trie.hh:124-133 | insert steps to a kid if and only if the kid's prefix begins the new prefix |
| `PrefixTrie.Trie.WalkPast` | base/trie.hh:195-201 | the walk ends at the deepest node whose prefix begins the new one |
| `PrefixTrie.Trie.AttachLeaf` | base/trie.hh:214-220 | adds exactly one binding with a fresh handle and keeps the trie valid |
| `PrefixTrie.Trie.SplitEdge` | base/trie.hh:238-243 | a fresh valueless node on the edge; all nodes keep prefix and value |
| `PrefixTrie.Trie.StoreAt` | base/trie.hh:203-209 | an existing valueless node takes the binding, nothing else changes |
| `PrefixTrie.Trie.SplitAndStore` | base/trie.hh:234-255 | after a split the value lands at the new node or beside the old kid, and all other bindings keep their handles |
| `PrefixTrie.Trie.TryLeg` | base/trie.hh:211-256 | one pass of the loop adds exactly the binding, or leaves all as it was when the kid differs in the next bit |
| `PrefixTrie.Trie.InsertBelow` | base/trie.hh:211-260 | one of the two legs takes the new prefix, so the final panic is never reached |
| `PrefixTrie.Trie.InsertMasked` | base/trie.hh:195-260 | for every unbound prefix insert terminates without the final panic, adds exactly that binding and keeps the invariant |
| `PrefixTrie.Trie.Insert` | base/trie.hh:185-260 | the abstract map gains exactly the prefix given by key and width |
| `PrefixTrie.Trie.Remove` | base/trie.hh:282-319 | exactly the node's binding goes, other handles stay good, the trie is compact again, and the recursion is at most one level deep |
| `PrefixTrie.Trie.SpliceOut` | base/trie.hh:295-311 | unlinking one node removes its binding only |
| `PrefixTrie.Trie.RemoveKey` | base/trie.hh:326-333 | removes the shortest stored prefix of the key and returns its value, or changes nothing when none matches |
| `PrefixTrie.Trie.ClearBelow` | base/trie.hh:69-82 | all links below a node are cut |
| `PrefixTrie.Trie.Clear` | base/trie.hh:339-343 | only the head is left and the map is empty |
| `PrefixTrie.Trie.SizeBound` | base/trie.hh:282-319 | n bindings, n at least 1, need at most 2n - 1 nodes below the head |
| `PrefixTrie.ShortestUnique` | base/trie.hh:158-175 | the shortest match is unique, so lookup's answer is determined by the map |
| `PrefixTrie.Perform` | base/trie.hh:178-343 | each operation does to the trie what it does to a plain map, and unremoved handles stay good |
| `PrefixTrie.Run` | base/trie.hh:178-343 | any allowed run from an empty trie refines the plain map |
| `AddressRange.BitsBounded` | base/bitfield.hh:49-71 | a bit field is quotient and remainder by powers of two, and is bounded by its width |
| `AddressRange.Make` | base/addr_range.hh:103-130 | construction succeeds if and only if the match value fits and no bit is both interleaving and hash bit |
| `AddressRange.Single` | base/addr_range.hh:397-399 | the range of one address has size 1 and no interleaving |
| `AddressRange.StripesPartition` | base/addr_range.hh:328-347 | with up to 8 interleaving bits, hashed or not, every address of the interval lies in exactly one stripe |
| `AddressRange.Merge` | base/addr_range.hh:143-177 | accepts exactly the full ordered sets of stripes of one group and returns their interval without interleaving |
| `AddressRange.UnionOfStripes` | base/addr_range.hh:143-177 | an accepted list covers an address exactly when a byte can name the address's stripe |
| `AddressRange.MergedIsUnion` | base/addr_range.hh:143-177 | the merged range is the union of its stripes if and only if all stripe numbers met fit a byte; always with up to 8 bits |
| `AddressRange.MergedByBits` | base/addr_range.hh:143-177 | for unhashed stripes of at least one round, the merged range is their union if and only if there are at most 8 interleaving bits |
| `AddressRange.NineBitsMissHalf` | base/addr_range.hh:159-169 | with 9 bits an accepted list covers exactly the lower half of its interval |
| `AddressRange.AnyPeriod` | base/addr_range.hh:196-199 | any window of one period, wherever it starts, holds one run of granularity addresses of each stripe |
| `AddressRange.ContainsUnhashed` | base/addr_range.hh:333-339 | membership in an unhashed stripe is a condition on the quotient by the granularity |
| `AddressRange.StripeSize` | base/addr_range.hh:196-217 | the cardinality of an unhashed stripe of whole rounds, and size() equals it if and only if the interval is not the full address space |
| `AddressRange.HashedStripeSize` | base/addr_range.hh:196-217 | the same for a stripe with its hash bits above the interleaving bits, if the interval starts at a multiple of a round |
| `AddressRange.PartOfRound` | base/addr_range.hh:328-347 | in any part of a round a hashed stripe holds as many addresses as one unhashed stripe, whose number the hash value of the round gives |
| `AddressRange.HashedShiftedSize` | base/addr_range.hh:196-217 | wherever such an interval of whole rounds, shorter than the full space, starts: how many addresses its stripe holds, and that size() is right if and only if the stripe takes as many of the first addresses of the first round as of the last, up to the offset of the start |
| `AddressRange.ShiftedExample` | base/addr_range.hh:196-217 | a hashed stripe of size() 1 that contains no address |
| `AddressRange.HashIsLow` | base/addr_range.hh:341-343 | hash bits below the interleaving bits are those of the remainder by the granularity |
| `AddressRange.AnyHashedRound` | base/addr_range.hh:341-343 | with hash bits below, any round, wherever it starts, holds one address of the stripe per remainder by the granularity |
| `AddressRange.HashedBelowSize` | base/addr_range.hh:196-217 | the size result for hash bits below the interleaving bits, for any start |
| `AddressRange.HashConstant` | base/addr_range.hh:341-343 | within an aligned round the hash value of all addresses is the same |
| `AddressRange.FullSpaceSize` | base/addr_range.hh:214-217 | the even addresses of the full space, which size() counts as none |
| `AddressRangeMap.Scan` | base/addr_range_map.hh:111-115 | the reference answer: the first entry containing the address |
| `AddressRangeMap.AtMostOne` | base/addr_range_map.hh:52-56 | in a map of pairwise compatible ranges at most one entry contains an address |
| `AddressRangeMap.SameGroup` | base/addr_range_map.hh:89-100 | everything between an earlier entry that spans the address and the predecessor is in one interleave group |
| `AddressRangeMap.SingleIntersects` | base/addr_range.hh:283-305 | a one-address query is never an unsupported test and means contains |
| `AddressRangeMap.CompatibleIntersects` | base/addr_range.hh:283-305 | compatible ranges never panic, and are reported disjoint unless the second is a stripe with size() 1 whose start the first contains |
| `AddressRangeMap.NothingHidden` | base/addr_range.hh:356-364 | if groups start in stripe 0 and plain ranges have match value 0, no entry is hidden |
| `AddressRangeMap.HiddenExample` | base/addr_range.hh:356-364 | a well-formed map with a hidden entry |
| `AddressRangeMap.PlainIntersects` | base/addr_range.hh:283-305 | for plain ranges intersects means overlap, and compatible means no overlap |
| `AddressRangeMap.OverlapAccepted` | base/addr_range_map.hh:74-87 | a plain map and a plain range whose overlap find does not see |
| `AddressRangeMap.SecondRefused` | base/addr_range.hh:294-297 | next to the stripe its interval starts in, any other stripe of the group with size() 1 is taken for an address of it |
| `AddressRangeMap.StripeRefused` | base/addr_range.hh:294-297 | the two stripes of [0, 1]: compatible, and the second is refused |
| `AddressRangeMap.AddrRangeMap.UpperBound` | base/addr_range_map.hh:74-74 | the first entry that the query sorts before |
| `AddressRangeMap.AddrRangeMap.NoneBefore` | base/addr_range_map.hh:89-106 | where the backward walk stops, no earlier entry can contain the address or overlap the plain range |
| `AddressRangeMap.AddrRangeMap.Find` | base/addr_range_map.hh:68-109 | an intersecting entry or end(); the exact answer for one-address queries, for queries compatible with every entry, which find something if and only if they are mistaken for an address, and for plain queries of plain maps, which find something if and only if the first entry or one starting at or before the query overlaps it |
| `AddressRangeMap.AddrRangeMap.WalkBack` | base/addr_range_map.hh:89-108 | the walk back through an interleave group gives find's answer |
| `AddressRangeMap.AddrRangeMap.FindAddr` | base/addr_range_map.hh:111-115 | never panics, and is the linear scan if and only if no entry is hidden |
| `AddressRangeMap.AddrRangeMap.Insert` | base/addr_range_map.hh:123-130 | a compatible range is refused if and only if it is mistaken for an address, and otherwise added in order, keeping the map well formed; whenever the map changes, exactly that entry was added; among plain ranges, when it is refused and when the map stays well formed, if and only if |
| `HistSpec.FitFromLeast` | base/statistics.hh:1577-1578 | doubling until it fits gives the least power of two that fits |
| `HistSpec.FoldUpTotal` | base/statistics.cc:336-356 | grow_up never loses a sample |
| `HistSpec.FoldConvertTotal` | base/statistics.cc:314-334 | grow_convert loses exactly the lowest bucket of an odd number of buckets |
| `HistSpec.ConvertDropsFirst` | base/statistics.cc:314-334 | three buckets with one sample at 0 are empty after the conversion |
| `HistSpec.FoldOutTotal` | base/statistics.cc:275-312 | grow_out loses exactly the lowest bucket when the number of buckets is 3 modulo 4 |
| `HistSpec.WeightDoubles` | base/statistics.cc:336-356 | doubling the bucket size joins the sample weights of two neighbouring buckets |
| `HistSpec.FoldUpRepresents` | base/statistics.cc:336-356 | grow_up keeps the buckets exact for the whole history |
| `HistSpec.OrderFree` | base/statistics.hh:1566-1595 | bucket weights and counts depend on the multiset of samples only |
| `HistSpec.MomentsOrderFree` | base/statistics.hh:1591-1593 | so do the sums of values, squares and logarithms |
| `HistSpec.BucketIsQuotient` | base/statistics.hh:1585-1586 | counting in steps of the bucket size gives the floored quotient |
| `HistSpec.MomentsAppended` | base/statistics.cc:365-367 | the sums of two streams add up |
| `Histogram.BoundsDouble` | base/statistics.cc:309-311 | each growth takes consistent bounds to consistent bounds |
| `Histogram.HistStor.constructor` | base/statistics.hh:1549-1553 | an empty, tight histogram |
| `Histogram.HistStor.Reset` | base/statistics.hh:1641-1657 | the history is forgotten and the least bucket size restored |
| `Histogram.HistStor.GrowUp` | base/statistics.cc:336-356 | the in-place loop computes the upward fold of the old buckets |
| `Histogram.HistStor.GrowConvert` | base/statistics.cc:314-334 | the in-place loop computes the downward fold of the old buckets, dropping the lowest one of an odd number |
| `Histogram.HistStor.GrowOut` | base/statistics.cc:275-312 | the in-place loops compute the outward fold of the old buckets, dropping the lowest one when their number is 3 modulo 4 |
| `Histogram.HistStor.RoomAbove` | base/statistics.hh:1576-1578 | one-sided growth terminates with room, exact buckets and the least bucket size |
| `Histogram.HistStor.RoomBelow` | base/statistics.hh:1573-1574 | two-sided growth downwards terminates with room, consistent bounds and every sample in a bucket or dropped; all its folds together drop what one does |
| `Histogram.HistStor.RoomBeyond` | base/statistics.hh:1580-1581 | two-sided growth upwards terminates with room, consistent bounds and every sample in a bucket or dropped; all its folds together drop what one does |
| `Histogram.HistStor.MakeRoom` | base/statistics.hh:1566-1583 | after growth the value lies within the bounds and the buckets still hold the history but for the lowest bucket, which is dropped exactly when an odd number of buckets turns two-sided or 3 modulo 4 of them grow out |
| `Histogram.HistStor.Index` | base/statistics.hh:1585-1588 | the index is in bounds and is floor(value / bucket size) when one-sided |
| `Histogram.HistStor.Count` | base/statistics.hh:1585-1589 | counting a sample in its bucket makes the buckets hold the longer history |
| `Histogram.HistStor.AddMoment` | base/statistics.hh:1591-1593 | the three sums become those of the longer history |
| `Histogram.HistStor.Sample` | base/statistics.hh:1566-1595 | the buckets, the count and the three sums hold the history extended by the sample; tightness is kept; what is dropped is exactly what making room dropped |
| `Histogram.HistStor.Align` | base/statistics.cc:370-373 | both growth loops terminate with equal bounds, each histogram still valid for its own history |
| `Histogram.HistStor.JoinAligned` | base/statistics.cc:365-376 | with equal bounds, adding buckets, sums and counts holds both histories |
| `Histogram.HistStor.Add` | base/statistics.cc:358-377 | the receiver is as if both sample streams had been fed to it |
| `Histogram.FitIsLeast` | base/statistics.hh:1577-1578 | the bucket size of a tight histogram is the least power of two reaching the maximum |
| `Histogram.OrderIndependent` | base/statistics.hh:1566-1595 | histograms fed the same non-negative samples in any order agree in buckets, bounds, count and all three sums |
| `Histogram.Feed` | base/statistics.hh:1566-1595 | every run of samples of any sign yields a valid, tight histogram of exactly that history; unless the bucket count is 3 modulo 4, what it dropped is a function of the history |
| `Histogram.FedLossOnce` | base/statistics.cc:314-334 | that function is the weight of the lowest bucket at the first negative sample, for an odd number of buckets |
| `Histogram.NothingLost` | base/statistics.cc:336-356 | it is 0 for non-negative samples |
| `Histogram.DropsFirst` | base/statistics.cc:314-334 | three buckets fed 0 and then -1: two samples are counted and one is in a bucket |
| `TickAverage.AreaUnchanged` | base/statistics.hh:561-567 | an event changes nothing before its own tick |
| `TickAverage.AreaConstant` | base/statistics.hh:564-564 | while nothing happens the integral grows by the held value per tick |
| `TickAverage.AvgStor.constructor` | base/statistics.hh:552-554 | starts with an empty log |
| `TickAverage.AvgStor.SetTo` | base/statistics.hh:561-567 | the running total stays the tick-by-tick integral of the log extended by the set |
| `TickAverage.AvgStor.IncBy` | base/statistics.hh:573-573 | likewise for an increment |
| `TickAverage.AvgStor.DecBy` | base/statistics.hh:579-579 | likewise for a decrement |
| `TickAverage.AvgStor.PrepareAt` | base/statistics.hh:606-611 | brings the integral up to the current tick |
| `TickAverage.AvgStor.ResetAt` | base/statistics.hh:616-622 | the integral restarts at the current tick, the held value stays |
| `TickAverage.AvgStor.Result` | base/statistics.hh:591-596 | the average of the values held at the end of every tick from the last reset through now |
| `ThreadBarrier.InitInv` | base/barrier.hh:60-62 | a new barrier satisfies the invariant |
| `ThreadBarrier.EnterInv` | base/barrier.hh:67-75 | arriving keeps the invariant, whether or not it completes the generation |
| `ThreadBarrier.RecheckInv` | base/barrier.hh:76-78 | re-checking keeps the invariant |
| `ThreadBarrier.WakeInv` | base/barrier.hh:76-77 | a spurious wake-up keeps the invariant |
| `ThreadBarrier.AlwaysInv` | base/barrier.hh:64-79 | the invariant holds in every state of every schedule of any number of threads |
| `ThreadBarrier.ArrivalsCounted` | base/barrier.hh:64-79 | arrivals equal generation times n plus n minus numLeft, with numLeft between 1 and n |
| `ThreadBarrier.NobodyLeavesEarly` | base/barrier.hh:64-79 | no call returns from a generation before its n-th arrival |
| `ThreadBarrier.OneTruePerGeneration` | base/barrier.hh:64-79 | a completed generation had n arrivals, one true return, and its other callers return false or are still about to |
| `ThreadBarrier.OldWaitersProceed` | base/barrier.hh:73-78 | a waiter's next check returns if and only if its generation is complete, so no wake-up is lost |
| `ThreadBarrier.Barrier.constructor` | base/barrier.hh:60-62 | the fields are those of the initial protocol state |
| `ThreadBarrier.Barrier.EnterWait` | base/barrier.hh:67-75 | the locked section updates the fields as the protocol's arrival step, returning at once exactly for the last arrival |
| `ThreadBarrier.Barrier.RecheckWait` | base/barrier.hh:76-78 | the loop test leaves exactly when the protocol's re-check step does |
| `OperandSlots.OperandList.constructor` | arch/isa_parser.py:893-929 | every register operand is numbered by the register operands before it; the totals and the count of each destination class are right; so are the predication flags |
| `OperandSlots.StoresFillSlots` | arch/isa_parser.py:530-548 | running the generated constructor fills the slots with the numbered operands whose guards hold, in list order |
| `OperandSlots.CountedAccesses` | arch/isa_parser.py:556-582 | with counted indices, the k-th live use of a template touches slot k, whatever the template's order |
| `OperandSlots.LiteralAccesses` | arch/isa_parser.py:562-582 | with literal indices, every use touches the slot of its number |
| `OperandSlots.LiteralsHit` | arch/isa_parser.py:893-900 | literal indices always hit |
| `OperandSlots.CountedHits` | arch/isa_parser.py:556-582 | counted indices hit if and only if the live uses are the first live operands of the list, in order |
| `OperandSlots.OutOfStepMisses` | arch/isa_parser.py:166-174 | a template out of step with the list misses a slot when all predicates hold |
| `OperandSlots.LeftOutMisses` | arch/isa_parser.py:976-1009 | using only the second of two operands, which is predicated, reads the first one's slot |
| `OperandSlots.SwappedMisses` | arch/isa_parser.py:976-1009 | so does using both in the other order |
| `OperandSlots.UndeclaredIndex` | arch/isa_parser.py:171-174 | using only the unpredicated one counts with an undeclared variable |
| `OperandSlots.AccessesHitTheirSlots` | arch/isa_parser.py:530-783 | all accesses hit their own slots under every truth assignment if and only if there is no predicate, or the template's numbered operands are the list's first ones in the list's order |
| `OperandSlots.CompilesWhen` | arch/isa_parser.py:171-174 | the index variable is declared where it is used, if and only if a predicated list is not used without any predicated operand |
| `OperandSlots.GeneratedCodeRight` | arch/isa_parser.py:162-209 | both together: when the code generated for a template is right |
| `OperandSlots.AssembleWriteBack` | arch/isa_parser.py:195-209 | writes stay in operand order and the PC state is written back once, right after the last partial PC write |
| `DecodeDefaults.Parser.constructor` | arch/isa_parser.py:1260-1260 | the stack starts with no default |
| `DecodeDefaults.Parser.OptDefault` | arch/isa_parser.py:1950-1965 | the default in scope below is the declared one, or the inherited one |
| `DecodeDefaults.Parser.DecodeBlock` | arch/isa_parser.py:1935-1944 | the push and pop actions generate the code of lexical inheritance and restore the stack |
| `DecodeDefaults.Parser.DecodeStmtList` | arch/isa_parser.py:1967-1975 | likewise for statement lists, with the error for two plain default cases |
| `DecodeDefaults.Parser.DecodeStmt` | arch/isa_parser.py:1994-2042 | likewise for each kind of statement |
| `DecodeDefaults.BlockComplete` | arch/isa_parser.py:1935-1944 | every switch generated for a block, at any depth, has exactly one default label if and only if no case list in it joins default with constants |
| `DecodeDefaults.TwoDefaultLabels` | arch/isa_parser.py:2048-2077 | a block that parses, with a case list `default, 1`: its switch has two default labels |
| `DecodeDefaults.StmtsComplete` | arch/isa_parser.py:1967-1975 | a statement list has as many default labels as its flag says, plus one for each joined case list, and complete switches below if and only if nothing is joined there |
| `DecodeDefaults.StmtComplete` | arch/isa_parser.py:1994-2042 | likewise for a statement |
| `DecodeDefaults.BlockAccepted` | arch/isa_parser.py:1935-1975 | parsing succeeds if and only if no block has two plain default cases and each block without one has a default in scope |
| `DecodeDefaults.StmtsAccepted` | arch/isa_parser.py:1967-1975 | the same for statement lists, whose flag tells whether there is a plain default case |
| `DecodeDefaults.StmtAccepted` | arch/isa_parser.py:1994-2042 | the same for statements |
| `AnnotateQueue.HeadShrinks` | base/cp_annotate.cc:1045-1056 | taking bytes off the head record takes them off the front of the byte sequence |
| `AnnotateQueue.BackStep` | base/cp_annotate.cc:656-667 | each pass of the shrinking loop keeps the bytes that are to stay |
| `AnnotateQueue.DropFront` | base/cp_annotate.cc:1036-1057 | exactly the first count bytes go, the record counter follows, and the loop never finds the queue inconsistent |
| `AnnotateQueue.DropBack` | base/cp_annotate.cc:647-668 | exactly the last count bytes go, the record counter follows, and the loop never finds the queue inconsistent |
| `AnnotateQueue.AnnotateQueues.constructor` | base/cp_annotate.hh:384-386 | empty queues with agreeing counters |
| `AnnotateQueue.AnnotateQueues.Enqueue` | base/cp_annotate.cc:979-997 | for any count one record joins at the back or front and the counters agree; the final assertion fails exactly for a negative total; for counts of at least zero the record's bytes join the byte sequence |
| `AnnotateQueue.AnnotateQueues.Dequeue` | base/cp_annotate.cc:1000-1062 | fails exactly when more bytes are asked for than there are; otherwise exactly that prefix, or everything, goes |
| `AnnotateQueue.AnnotateQueues.Resize` | base/cp_annotate.cc:628-669 | the queue ends with exactly max(size, 0) bytes, truncated or extended at its tail |
| `CircularBuffer.SlotIsModulo` | base/circlebuf.hh:121-121 | the slot of a ring position is its remainder |
| `CircularBuffer.RingUnwraps` | base/circlebuf.hh:121-133 | a stretch of the ring is one or two slices of the store |
| `CircularBuffer.RingOverwritten` | base/circlebuf.hh:165-176 | overwriting keeps as much of the old contents as fits and appends the data |
| `CircularBuffer.CircleBuf.constructor` | base/circlebuf.hh:74-75 | an empty buffer |
| `CircularBuffer.CircleBuf.Flush` | base/circlebuf.hh:93-96 | the contents are gone |
| `CircularBuffer.CircleBuf.Peek` | base/circlebuf.hh:116-134 | a slice of the contents across the wrap, refused exactly when it would pass the end |
| `CircularBuffer.CircleBuf.Normalize` | base/circlebuf.hh:186-195 | restores the pointer invariants without changing the contents |
| `CircularBuffer.CircleBuf.Read` | base/circlebuf.hh:142-148 | returns and removes the front |
| `CircularBuffer.CircleBuf.CopyIn` | base/circlebuf.hh:165-169 | the two copies write the data to consecutive ring positions and nothing else |
| `CircularBuffer.CircleBuf.Write` | base/circlebuf.hh:156-179 | the contents become the last capacity() elements of contents and input |
| `CircularBuffer.CircleBuf.Save` | base/circlebuf.hh:249-257 | the checkpoint is the contents |
| `CircularBuffer.CircleBuf.Restore` | base/circlebuf.hh:259-269 | the contents become what fits of the end of the checkpoint |
| `CircularBuffer.RoundTrip` | base/circlebuf.hh:249-269 | a checkpoint loaded into any buffer at least as large restores the contents |
| `CircularBuffer.Fifo.constructor` | base/circlebuf.hh:223-224 | nothing written, nothing read |
| `CircularBuffer.Fifo.Flush` | base/circlebuf.hh:230-230 | the record of writes and reads restarts |
| `CircularBuffer.Fifo.Read` | base/circlebuf.hh:234-235 | everything read followed by the contents stays everything written |
| `CircularBuffer.Fifo.Write` | base/circlebuf.hh:237-242 | refused exactly when it would overflow; otherwise nothing is ever lost |
| `Chunks.AddIsModulo` | base/chunk_generator.hh:87-105 | address arithmetic is modulo 2^w |
| `Chunks.RoundUpIsNextMultiple` | base/intmath.hh:203-209 | for every address the mask trick yields the next multiple at or above it, or zero where that is 2^w |
| `Chunks.NoCrossing` | base/chunk_generator.hh:44-48 | a chunk inside a block has first and last byte in the same block |
| `Chunks.NextBoundary` | base/chunk_generator.hh:94-105 | the distance to the next boundary strictly above the start, even for an aligned start or a boundary at 2^w |
| `Chunks.ChunkGenerator.constructor` | base/chunk_generator.hh:81-108 | the first chunk starts at the region's start and the rest is accounted for |
| `Chunks.ChunkGenerator.Next` | base/chunk_generator.hh:136-149 | the next chunk follows without a gap, and is full unless it is the last |
| `Chunks.Iterate` | base/chunk_generator.hh:49-56 | the chunks of a full iteration, each within one block |
| `Chunks.Generate` | base/chunk_generator.hh:49-56 | for every region within the address space: contiguous non-empty chunks that cover exactly the region, cross no boundary and are full except at the ends; one chunk for chunk size 0 |
| `GdbPacket.I2Digit` | base/remote_gdb.cc:1056-1060 | digit2i undoes i2digit up to the low four bits |
| `GdbPacket.Mem2Hex` | base/remote_gdb.cc:1063-1074 | two digits per byte and a terminating zero |
| `GdbPacket.Hex2Mem` | base/remote_gdb.cc:1080-1096 | the bytes the digits stand for and where the digits end, or the half-byte error |
| `GdbPacket.Nibbles` | base/remote_gdb.cc:1070-1071 | two digits of a byte give the byte back |
| `GdbPacket.UnhexOfHex` | base/remote_gdb.cc:1063-1096 | hex2mem undoes mem2hex for every byte array, from any byte on, up to its length limit |
| `RemoteGdb.OverrunWhen` | base/remote_gdb.cc:413-421 | the terminator is stored outside the buffer if and only if maxlen is the buffer's size and the stream is damaged frames, junk and a packet that goes on for maxlen bytes |
| `RemoteGdb.OverrunExample` | base/remote_gdb.cc:413-421 | a packet of as many letters as the buffer has bytes does so |
| `RemoteGdb.TryFrame` | base/remote_gdb.cc:398-443 | any frame after junk is accepted if its check digits match and complained about otherwise |
| `RemoteGdb.FrameChecksOut` | base/remote_gdb.cc:376-382 | send's check digits match for 7-bit payloads |
| `RemoteGdb.DeliveredNow` | base/remote_gdb.cc:431-442 | an accepted payload is delivered, with a sequence number stripped and echoed, if and only if no stale colon is met |
| `RemoteGdb.FrameReceived` | base/remote_gdb.cc:360-450 | recv on send's frame delivers the payload if and only if no stale colon is met |
| `RemoteGdb.DamagedRefused` | base/remote_gdb.cc:443-445 | a damaged frame is answered with '-' and otherwise only leaves its bytes in the buffer |
| `RemoteGdb.SentIsReceived` | base/remote_gdb.cc:360-450 | after any number of damaged frames, each answered with '-', send's frame is acknowledged and delivered, if and only if no stale colon is met; for every maxlen up to the buffer's size |
| `RemoteGdb.StaleColon` | base/remote_gdb.cc:433-440 | a damaged "ab:" followed by send's frame for "m" makes the length negative |
| `RemoteGdb.RetransmitsOnComplaint` | base/remote_gdb.cc:368-386 | n complaints make send write the frame n + 1 times and stop after the first other answer |
| `RemoteGdb.Connection.Send` | base/remote_gdb.cc:360-387 | frames are written until an answer is not a complaint, or the client is lost |
| `RemoteGdb.Connection.SendFrame` | base/remote_gdb.cc:369-382 | exactly one frame with the running checksum is written |
| `RemoteGdb.Connection.SkipToStart` | base/remote_gdb.cc:401-402 | everything through the first start character is consumed |
| `RemoteGdb.Connection.ReadPayload` | base/remote_gdb.cc:404-415 | payload bytes cut to 7 bits go to the buffer, at most maxlen, with their sum |
| `RemoteGdb.Connection.Acknowledge` | base/remote_gdb.cc:431-442 | '+' and, for a sequenced packet, the echo and the shift in the buffer |
| `RemoteGdb.Connection.RecvPacket` | base/remote_gdb.cc:398-447 | one pass over the stream finishes, or complains and leaves the rest of the stream; also with maxlen the whole buffer, as at lines 997-1004 |
| `RemoteGdb.Connection.Recv` | base/remote_gdb.cc:390-450 | the loop is the receiver function of the incoming bytes, in outcome, answers and buffer |

## Left out

- Trie: width 0, null values and a second binding of a bound prefix, which the source asserts against or leaves undefined; debugging dumps.
- AddressRangeMap.AddrRangeMap.Find: queries of several addresses that meet interleaved ranges they are not compatible with are characterised only when they hit, because the source panics on most of them.
- AddressRangeMap.AddrRangeMap.Insert: which incompatible ranges are refused is stated among plain ranges only, for the same reason.
- AddressRange: isSubset and printing; sizes of intervals that are not whole rounds, which the source assumes away; interleaving slices that do not fit a 64-bit address.
- Histogram.HistStor.Sample: sample values are reals and bucket counters integers; what a sample adds to the three sums is a parameter, of which `Exact` is the exact reading; rounding of the additions and the logarithm of values that have none are not modelled.
- Histogram.Feed: for a bucket count of 3 modulo 4 what a whole run dropped is stated sample by sample only, in `Sample`.
- Histogram.HistStor.MakeRoom: does not state which bucket a sample is in after the two-sided folds, because the folds join buckets across the new bucket boundaries.
- Histogram.HistStor.constructor: one bucket is excluded, as sample asserts that the bounds differ; zero buckets likewise.
- ThreadBarrier: the real mutex and condition variable (steps are atomic), and wrap-around of the unsigned generation counter.
- OperandSlots: custom read and write code, finding and sorting the operands of code (any order of use is admitted instead), the width of emitted index variables.
- DecodeDefaults: header, decoder and exec output, the format stack, lexing and table-driven parsing.
- AnnotateQueue: 32-bit overflow of the counters, dequeuing and resizing with records of negative size, records shared with the event log, warnings and dumps.
- CircularBuffer.CircleBuf.Peek: does not model a negative offset, nor 64-bit overflow of the offset plus the length in the check.
- CircularBuffer.Fifo.Write: does not model 64-bit overflow of the size plus the length in the check.
- CircularBuffer: capacity 0, where the source divides by zero; loading a FIFO from a checkpoint.
- Chunks: regions that wrap around the address space.
- RemoteGdb.Connection.Recv: a copy of negative length and a terminator past the buffer end the model; after these and after a lost client the buffer is not described.
- RemoteGdb: sockets, the command table, break points and register caches.
- Polling, prime numbers, activity recording, CPU and instruction base classes, logging, formatting, time and random numbers: input and output, or thin wrappers.
