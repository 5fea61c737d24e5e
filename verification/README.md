# Verified model of the policy-engine validator, its rule caches and its tag files

The policy engine watches a RISC-V simulator. Before an instruction runs, the validator gathers the tags of its
operands and asks a policy whether it may run; after it ran, the validator commits the tags the policy computed. A
rule cache remembers the policy's answers. The tags come from a memory map that the tagging tools build, write to a
tag file, and the validator loads and applies.

This project models these parts and proves what they promise:

- **The multi-hash rule cache** (`DmhcSpec`, `DmhcInvariant`, `DmhcTheorems`, `DmhcMixed`, `DmhcSelfCheck`,
  `DmhcAssertion`, `DmhcReach`, `DmhcTwoTables`, `DmhcFailingRun`, `DmhcAbortingRun`, `DmhcSwapTables`, `Dmhc`,
  `DmhcRuleCache`). A rule's address is the XOR of k table words; counters and last inserters are hints that may be
  wrong. With one operand mask, every reachable state keeps an invariant under which a hit is always for exactly
  the queried record and the run-time self-check never fires. With masks that differ, the project proves what still
  holds and exactly when a wrong rule is returned. Two things end the process: that self-check, and the assertion
  that the chosen slot is unused, which the configured build keeps and which fails even with one mask. The project
  proves exactly when each does, and which rules an insertion leaves reachable, with `Config.asserts` for a build
  with or without assertions.
- **Its hashes** (`CycleWalk`, `FoldHash`, `ComputeHash`, `HashCollisions`): cycle walking is a bijection, folding
  is linear, records one bit apart never collide, and for every choice of tables some records do.
- **The ideal and the finite rule cache** (`RuleCaches`): for every run, exactly which keys are held and when the
  internal error is reached.
- **The validator** (`ValidatorSpec`, `ValidatorTheorems`, `ValidatorCollisions`, `ValidatorEnds`,
  `ValidatorMeaning`, `ValidatorFlow`, `ValidatorReadsMap`, `RvValidator`): the operands the policy sees are what
  the last instructions that wrote them left, or what the tag file says. The ideal and the finite cache do not
  change a verdict or a tag on any run in which `commit` follows an allowing `validate`; the multi-hash cache does
  not on runs in which no queried record contains another and the process survives. Runs of records with the same
  operands present are one case. The project proves exactly which runs the process survives. For every choice of
  hash tables there is a run on which the cache does change a verdict, and for made-up tables there are runs in
  which the self-check and the assertion end the process.
- **The tag memory map** (`MetadataMemoryMap`, `MemoryMapTheorems`, `MemoryMapUnion`, `RunIterator`): regions of
  words with pointers to canonical tag sets agree with a plain function from addresses to tag sets, and the project
  proves exactly when adding a range loses tags.
- **The files** (`Uleb`, `TagInfo`, `TagInfoTheorems`, `TagRows`, `RegisterNames`, `FirmwareTagFile`,
  `FirmwareTagTheorems`, `LoadedTags`, `TruncatedFiles`): unsigned LEB128 (section 7.6 of DWARF Version 5), the map
  file and the firmware tag file come back as they were written; a firmware tag file cut short anywhere is
  rejected, a map file cut between two records is not.
- **Coalescing and indexing** (`CoalesceRanges`, `MetadataIndexMap`, `Interning`).
- **Tags and the tag bus** (`TagBus`, `TagBusTheorems`, `SocConfiguration`, `ApplyMetadata`, `ApplyTheorems`): a
  bus configured from elements that do not overlap reads each element's tag; after a map is applied, the
  instruction tag the validator reads at an address means what the tag file says about it, and the data tag means
  what the file says about the first word of the address's granule.

Code that changes objects in place is modelled by classes and loops (`Dmhc`, `ComputeHash`, `RuleCaches`,
`DmhcRuleCache`, `RvValidator`, `TagBus`, `MetadataMemoryMap`, `RunIterator`, `Uleb`, `TagInfo`, `FirmwareTagFile`,
`CoalesceRanges`, `MetadataIndexMap`, `SocConfiguration`, `ApplyMetadata`). Each is proved equal to functions on
values, and the properties are lemmas about those functions. `Bits` holds the arithmetic of bits on natural
numbers, `SetOrder` the order in which a set is iterated, and `Wrappers` the option type.

What the theorems assume of their surroundings:

- The policy is a function of the context and the operands. When it leaves `ctx.cached` set, its outcome depends on
  the operands alone (`Cacheable`).
- The decoder and the address fixer are functions; the register reader's value comes with each request.
- The cache capacity is a power of two and at least 2, k is 1 to 4, and `no_evict` is false.
- The permutation tables of the hashes are permutations.
- The tag granularity of a RAM region is a power of two; regions on the bus are disjoint, word-aligned and below
  2^63 (`DisjointRegions`).
- Ranges of the memory map are word-aligned and end below 2^64 - 4, where adjacency wraps (`InBounds`). Saving
  needs a map without null words (`Pointed`), because the saver dereferences every pointer.

Where the code and its comments differ, the model follows the code:

- The comment in `finite_rule_cache.h` names `entries[(next_entry+1)%capacity]` as the oldest entry of a full
  cache; the code evicts `entries[next_entry]`.
- The same comment calls the cache ideal in that it always evicts the oldest element. After a flush, or when a
  present key other than the oldest is installed again, it does not (`FlushLosesNewRule`, `FiniteIsFifoIff`), and
  the branch for an internal error can be reached (`InternalErrorIff`, `FlushReachesError`, `RepeatReachesError`).
- `range.h` calls the end of a range exclusive; `coalesce_ranges` and the section ranges it gets use inclusive
  ends.
- `coalesce_ranges` leaves some overlapping ranges unmerged, because its unsigned difference wraps
  (`CoalescedSeparatedIff`, `OverlapStays`).
- Adding a range to the memory map is meant to union tags; where regions come to overlap, tags are lost
  (`UnionRightIff`, `TagsLost`).
- A range inside a region is unioned with it, but not if the region starts at address 0: `adjacent` wraps there, so
  such a region is never grown and hides what is added to it (`NestedIsRightIff`).
- A comment in `dmhc_rule_cache.h` marks `install_rule` as not used; `commit` uses it.
- The assertion at `dmhc.cc` line 291 says that the chosen slot is unused; the comment at lines 417-422 says that a
  slot in use is overwritten on purpose. Both are in the model: the state is what is stored when assertions are
  compiled out, and the exit code says whether the assertion has ended the process (`PlaceAssertsIff`,
  `OneMaskRunAborts`).
- `save_tag_indexes` is called with -1 for a missing default, on which `write_uleb<int32_t>` does not end
  (`SaveEndsIff`).

`dafny verify dfyconfig.toml` checks the whole project.

## Model

| member | source | states |
|---|---|---|
| `DmhcTheorems.InsertCorrect` | validator/rule_cache/dmhc_rule_cache/dmhc.cc:315-456 | One insertion keeps the table invariant, makes the new rule found with exactly its result, and loses at most two stored rules: the one in the recycled entry and at most one more; every other rule stays at its address with its operands and result |
| `DmhcTheorems.RunInvariant` | validator/rule_cache/dmhc_rule_cache/dmhc.cc:95-312 | Over every run of inserts, lookups and resets with one mask: counters are at most min(3, live users of the slot), a zero counter means a blank slot, a last inserter names a live user, dead entries are blank, entry 0 is never live, and every live rule was installed since the last reset |
| `DmhcTheorems.RunSound` | validator/rule_cache/dmhc_rule_cache/dmhc.cc:180-211 | A hit after any one-mask run returns a result installed for exactly the queried operands since the last reset, whatever was evicted, overwritten or orphaned |
| `DmhcTheorems.RunThenInsertHits` | validator/rule_cache/dmhc_rule_cache/dmhc.cc:343-349 | After any one-mask run, inserting a rule makes the closing lookup find exactly its result, so neither exit of the self-check is reached |
| `DmhcTheorems.RunComputesPolicy` | validator/rule_cache/dmhc_rule_cache/dmhc.cc:458-486 | If every installed result is a function P of its operands, every hit is P of the queried operands |
| `DmhcTheorems.PrepareInv` | validator/rule_cache/dmhc_rule_cache/dmhc.cc:355-436 | Choosing a slot keeps the invariant and at hop 0 always finds one, so exit code 3 is never reached; a victim is a live rule and never the guarded one |
| `DmhcTheorems.PlaceNewRule` | validator/rule_cache/dmhc_rule_cache/dmhc.cc:352-449 | Hop 0 leaves the invariant true and the new rule reachable, and changes no stored rule but the victim |
| `DmhcTheorems.PlaceVictim` | validator/rule_cache/dmhc_rule_cache/dmhc.cc:396-456 | Re-homing a victim at hop 1 leaves the new rule reachable, puts the victim back at its own address or drops it, and evicts at most one other rule |
| `DmhcTheorems.PlaceAndRehomeInv` | validator/rule_cache/dmhc_rule_cache/dmhc.cc:450-455 | The two hops together keep the invariant and lose at most one stored rule besides the recycled one |
| `DmhcTheorems.VacateInv` | validator/rule_cache/dmhc_rule_cache/dmhc.cc:321-327 | Recycling the next entry leaves it dead and every other entry unchanged |
| `DmhcTheorems.MatchIsEquality` | validator/rule_cache/dmhc_rule_cache/dmhc.cc:186-209 | For records with zeros outside the mask, the field-by-field comparison is equality |
| `DmhcInvariant.EvictInv` | validator/rule_cache/dmhc_rule_cache/dmhc.cc:218-266 | Eviction keeps the invariant, guarded or not |
| `DmhcInvariant.EvictKeepsGuarded` | validator/rule_cache/dmhc_rule_cache/dmhc.cc:246-256 | Evicting another rule with the new rule's slots guarded leaves the new rule reachable at its address |
| `DmhcReach.EvictedSlot` | validator/rule_cache/dmhc_rule_cache/dmhc.cc:246-266 | An eviction takes one count from each slot of the evicted rule, down to zero only if the slot is not guarded; the word and the last inserter go only with the last count, and a slot that is still in use keeps its word |
| `DmhcReach.EvictKeepsIff` | validator/rule_cache/dmhc_rule_cache/dmhc.cc:246-266 | With any mixture of masks, a reachable rule stays reachable across the eviction of another one exactly when every slot they share has a count above 1 or is guarded |
| `DmhcReach.OrphanIsMissed` | validator/rule_cache/dmhc_rule_cache/dmhc.cc:246-266 | Otherwise a lookup misses it |
| `DmhcReach.StoredSlot` | validator/rule_cache/dmhc_rule_cache/dmhc.cc:293-312 | Storing a rule makes it the last inserter of its own slots and counts one user more there, up to 3; one word changes at most |
| `DmhcReach.StoreKeepsIff` | validator/rule_cache/dmhc_rule_cache/dmhc.cc:293-312 | A reachable rule stays reachable while another is stored exactly when its word is not the overwritten one or the overwriting does not change it |
| `DmhcReach.InsertKeepsAnswers` | validator/rule_cache/dmhc_rule_cache/dmhc.cc:315-456 | When the new rule finds a free slot, every lookup that reaches a stored rule answers as before, unless that rule is alone in a slot it shares with the recycled one |
| `DmhcReach.SparedAnswers` | validator/rule_cache/dmhc_rule_cache/dmhc.cc:315-456 | The same for an insertion that displaces a rule: a lookup answers as before if neither eviction takes a slot from the rule alone and neither overwritten word is one of its own |
| `DmhcReach.RehomedAnswers` | validator/rule_cache/dmhc_rule_cache/dmhc.cc:396-456 | With one mask, a displaced rule that is not given up is found again with its result |
| `DmhcReach.RehomedEntry` | validator/rule_cache/dmhc_rule_cache/dmhc.cc:396-456 | A displaced rule that is not given up is stored with its result under its own mask; if it displaces another rule in turn, under that rule's mask, because the eviction overwrites the mask argument |
| `DmhcReach.MergeMatches` | validator/rule_cache/dmhc_rule_cache/dmhc.cc:268-290 | A stored key has the operands' fields inside the mask and the entry's old fields outside it |
| `DmhcReach.InstallAfterFlush` | validator/rule_cache/dmhc_rule_cache/dmhc_rule_cache.cc:32-82 | A flush keeps the operands of the latest `allow`: a rule installed after it is found under them, and the process survives |
| `DmhcReach.EntriesInTurn` | validator/rule_cache/dmhc_rule_cache/dmhc.cc:321-327 | Insertions recycle the entries 1 to capacity - 1 in turn, counted from the last reset |
| `DmhcReach.ResetBlanks` | validator/rule_cache/dmhc_rule_cache/dmhc.cc:95-109 | A reset blanks every slot and entry, keeps the masks and starts again at entry 1 |
| `DmhcInvariant.RealInsertInv` | validator/rule_cache/dmhc_rule_cache/dmhc.cc:268-312 | Storing a rule in a dead entry keeps the invariant even when it overwrites a slot in use |
| `DmhcInvariant.RealInsertResolves` | validator/rule_cache/dmhc_rule_cache/dmhc.cc:293-298 | Overwriting one word makes the XOR of the k words the new entry's address |
| `DmhcInvariant.RealInsertKeepsGuarded` | validator/rule_cache/dmhc_rule_cache/dmhc.cc:293-312 | Storing a second rule through an unguarded slot does not move the address the guarded rule resolves to |
| `DmhcSpec.AddressInRange` | validator/rule_cache/dmhc_rule_cache/dmhc.cc:471-474 | Any XOR of stored words stays below a power-of-two capacity |
| `DmhcMixed.InsertMixed` | validator/rule_cache/dmhc_rule_cache/dmhc.cc:315-350 | With masks that differ from call to call, an insertion whose self-check passes keeps the weaker invariant that a live entry is blank or holds part of an installed key, with its pc and ci tag and its result |
| `DmhcMixed.GivingUpNewRuleFails` | validator/rule_cache/dmhc_rule_cache/dmhc.cc:396-400 | If the re-homed victim is the entry just filled and it is given up, the self-check fails |
| `DmhcMixed.MixedRunInvariant` | validator/rule_cache/dmhc_rule_cache/dmhc.cc:228-230 | The weaker invariant holds after every run the wrapper can drive, while its self-checks pass |
| `DmhcMixed.MixedHit` | validator/rule_cache/dmhc_rule_cache/dmhc.cc:180-211 | In such a state a hit returns a result installed for a record that agrees with the query on every field the query has; only the query without any tag can find a blank entry instead |
| `DmhcMixed.MixedRunSound` | validator/rule_cache/dmhc_rule_cache/dmhc_rule_cache.cc:49-78 | The same over every run of the wrapper, with any mixture of masks |
| `DmhcMixed.MixedRunExact` | validator/rule_cache/dmhc_rule_cache/dmhc_rule_cache.cc:49-78 | The hit is for exactly the queried record when no installed record contains it, with the same exception for the query without any tag |
| `DmhcSelfCheck.InsertPassesIff` | validator/rule_cache/dmhc_rule_cache/dmhc.cc:315-350 | With any mixture of masks, an insertion of operands with a pc or a ci tag, or of results that are not all zero, passes its self-check exactly when neither hop evicts the entry just recycled, which can be read off the tables before the call |
| `DmhcSelfCheck.SparedPasses` | validator/rule_cache/dmhc_rule_cache/dmhc.cc:315-350 | If neither does, it passes whatever the operands and the results are |
| `DmhcSelfCheck.NextCheckPassesIff` | validator/rule_cache/dmhc_rule_cache/dmhc.cc:315-350 | The same for one more insertion after any run of the wrapper whose checks passed |
| `DmhcSelfCheck.NoStalePasses` | validator/rule_cache/dmhc_rule_cache/dmhc.cc:315-350 | It passes when every slot that names the entry to be recycled is a slot of the key stored there |
| `DmhcSelfCheck.OneMaskNoStale` | validator/rule_cache/dmhc_rule_cache/dmhc.cc:95-312 | With one mask for all rules that condition always holds |
| `DmhcAssertion.PlaceAssertsIff` | validator/rule_cache/dmhc_rule_cache/dmhc.cc:291-291 | At either hop, whatever the tables hold, the assertion that the chosen slot is unused holds exactly when a slot is unused, or all are guarded and nothing is stored, or the last inserter of the least used slot is the only counted user of a slot that may be overwritten |
| `DmhcAssertion.OneMaskRoomIff` | validator/rule_cache/dmhc_rule_cache/dmhc.cc:291-291 | With one mask for all rules: exactly when a slot is unused, or all are guarded, or the least count among the others is 1 and its last inserter is known |
| `DmhcAssertion.MinUseIsFirst` | validator/rule_cache/dmhc_rule_cache/dmhc.cc:423-434 | The slot that is overwritten is the first of the least used ones: every unguarded one before it has a larger count |
| `DmhcAssertion.InsertAssertsIff` | validator/rule_cache/dmhc_rule_cache/dmhc.cc:291-291 | An insertion passes the assertion at both hops exactly when that condition holds on the tables with the next entry recycled and, for a displaced rule, on the tables after hop 0 |
| `DmhcAssertion.ExitIff` | validator/rule_cache/dmhc_rule_cache/dmhc.cc:291-350 | With any mixture of masks, the process survives an insertion (of the operands and results named above) exactly when neither hop evicts the recycled entry and, in a build with assertions, there is room at both hops |
| `DmhcAssertion.OneMaskExitIff` | validator/rule_cache/dmhc_rule_cache/dmhc.cc:291-350 | With one mask, an insertion ends the process exactly when assertions are compiled in and there is no room at one of the hops, and then by the assertion |
| `DmhcAssertion.OneMaskAliveIff` | validator/rule_cache/dmhc_rule_cache/dmhc.cc:291-350 | With one mask, the process survives every run without assertions, and with them exactly the runs with room at every insertion |
| `DmhcAssertion.WrapperAliveIff` | validator/rule_cache/dmhc_rule_cache/dmhc.cc:291-350 | With any mixture of masks, the process survives exactly the runs whose insertions all meet the condition of `ExitIff` |
| `DmhcFailingRun.IncomparableRunFails` | validator/rule_cache/dmhc_rule_cache/dmhc.cc:315-350 | For all two tables of 16 slots that give seven records, none of which contains another, certain indexes: each record is missed before it is installed, seven installations succeed, and installing the first record again fails its self-check and ends the process with code 1 |
| `DmhcAbortingRun.OneMaskRunAborts` | validator/rule_cache/dmhc_rule_cache/dmhc.cc:291-291 | For all two tables of 16 slots that give four records with the same operands certain indexes: each record is missed before it is installed, three installations succeed, and the assertion aborts the fourth |
| `DmhcSwapTables.SmallIndex` | validator/rule_cache/dmhc_rule_cache/compute_hash.cc:277-320 | For two made-up permutation tables of 192 bits and 32-bit fields, each tag bit of a record of tags below 4 sets one known bit of each index |
| `DmhcSwapTables.SwapTablesRunFails` | validator/rule_cache/dmhc_rule_cache/compute_hash.cc:277-320 | Permuting and folding with these two tables, which are not the four of 2048 bits that the source ships, gives the records the indexes of the first run, so it happens for k = 2 and a capacity of 8 |
| `DmhcSwapTables.SwapTablesRunAborts` | validator/rule_cache/dmhc_rule_cache/compute_hash.cc:277-320 | And those of the second run |
| `DmhcMixed.FirstInsert` | validator/rule_cache/dmhc_rule_cache/dmhc.cc:268-312 | The first rule after a reset goes to entry 1 and only its own slots are in use |
| `DmhcMixed.FalseHitIff` | validator/rule_cache/dmhc_rule_cache/dmhc.cc:186-209 | After one rule for k, a query for q is answered with it exactly when k contains q and the two collide in every table, and missed otherwise |
| `HashCollisions.IndexXor` | validator/rule_cache/dmhc_rule_cache/compute_hash.cc:277-320 | Every index of a record is linear: the index of the XOR of two records is the XOR of their indexes |
| `HashCollisions.TwoRecordsCollide` | validator/rule_cache/dmhc_rule_cache/compute_hash.cc:277-320 | For every choice of permutation tables, up to four of them, and every capacity that the C++ `int` holds twice, two different records have the same index in every table |
| `HashCollisions.ContainedRecordsCollide` | validator/rule_cache/dmhc_rule_cache/compute_hash.cc:277-320 | For every such choice an instruction without operands collides in every table with the same instruction with some 32-bit operands |
| `HashCollisions.FalseHitExists` | validator/rule_cache/dmhc_rule_cache/dmhc.cc:186-209 | So for every such choice a false hit exists: after the rule of one record is installed, a different record is answered with it |
| `Dmhc.Dmhc.Insert` | validator/rule_cache/dmhc_rule_cache/dmhc.cc:315-350 | The in-place tables become exactly the specified state; the returned exit code is that of the first assertion or self-check to fail, 0 if none does; with one mask for all rules the self-check does not |
| `Dmhc.Dmhc.InsertAt` | validator/rule_cache/dmhc_rule_cache/dmhc.cc:352-456 | The recursive insertion, including the aliasing of its mask argument with the evicted mask at hop 1, equals placing the rule and re-homing one victim; the returned flag tells whether the assertions of both hops hold |
| `Dmhc.Dmhc.PlaceRule` | validator/rule_cache/dmhc_rule_cache/dmhc.cc:355-449 | One level of the recursion equals the specified placement and reports the specified victim |
| `Dmhc.Dmhc.RealInsert` | validator/rule_cache/dmhc_rule_cache/dmhc.cc:268-313 | The arrays after `real_insert` are those of the specified insertion, and the returned flag tells whether its assertion holds |
| `Dmhc.Dmhc.EvictMtableEntry` | validator/rule_cache/dmhc_rule_cache/dmhc.cc:218-266 | The arrays after an eviction are those of the specified one, and the victim's key, result and mask are handed out |
| `Dmhc.Dmhc.FindFreeSlot` | validator/rule_cache/dmhc_rule_cache/dmhc.cc:363-366 | Finds the lowest table whose counter is zero, or -1 |
| `Dmhc.Dmhc.FindMinUse` | validator/rule_cache/dmhc_rule_cache/dmhc.cc:423-434 | Finds the first table with the smallest counter among the unguarded ones, or -1 |
| `Dmhc.Dmhc.Lookup` | validator/rule_cache/dmhc_rule_cache/dmhc.cc:458-486 | Finds what the specified lookup finds and changes no table |
| `Dmhc.Dmhc.Hit` | validator/rule_cache/dmhc_rule_cache/dmhc.cc:180-211 | Compares exactly the considered fields of a live entry |
| `Dmhc.Dmhc.Recycle` | validator/rule_cache/dmhc_rule_cache/dmhc.cc:321-327 | Takes the next entry in turn, skips entry 0, and evicts the rule it holds |
| `Dmhc.Dmhc.Reset` | validator/rule_cache/dmhc_rule_cache/dmhc.cc:95-109 | Clears every table and leaves the per-entry masks |
| `Dmhc.Dmhc.constructor` | validator/rule_cache/dmhc_rule_cache/dmhc.cc:11-66 | A new cache is empty, with masks holding whatever was allocated |
| `DmhcRuleCache.DmhcRuleCache.Allow` | validator/rule_cache/dmhc_rule_cache/dmhc_rule_cache.cc:49-78 | The mask comes from the bad tags of the operands; operands and mask are kept for the next installation; a hit copies the stored result |
| `DmhcRuleCache.DmhcRuleCache.InstallRule` | validator/rule_cache/dmhc_rule_cache/dmhc_rule_cache.cc:32-47 | The rule is installed under the operands of the previous `allow`, whatever operands are passed |
| `DmhcRuleCache.DmhcRuleCache.Flush` | validator/rule_cache/dmhc_rule_cache/dmhc_rule_cache.cc:80-82 | Flushing resets the tables |
| `CycleWalk.WalkIsBijection` | validator/rule_cache/dmhc_rule_cache/compute_hash.cc:404-407 | For any permutation of [0,N) and n <= N, walking from each i < n ends below n, and the map is a bijection on [0,n) |
| `CycleWalk.WalkLoop` | validator/rule_cache/dmhc_rule_cache/compute_hash.cc:405-406 | The loop terminates for every i < n and returns the walk's end |
| `FoldHash.FoldBelow` | validator/rule_cache/dmhc_rule_cache/compute_hash.cc:212-250 | A fold of bits is below 2^width |
| `FoldHash.FoldLinear` | validator/rule_cache/dmhc_rule_cache/compute_hash.cc:222-224 | The fold of the XOR of two bit strings is the XOR of their folds |
| `FoldHash.FoldUnit` | validator/rule_cache/dmhc_rule_cache/compute_hash.cc:223-224 | A single one bit folds to one at its position modulo the width |
| `FoldHash.FoldFlip` | validator/rule_cache/dmhc_rule_cache/compute_hash.cc:223-224 | Flipping one input bit flips exactly the folded bit at its position modulo the width |
| `FoldHash.FoldOfWord` | validator/rule_cache/dmhc_rule_cache/compute_hash.cc:212-250 | A word no longer than the width folds to itself |
| `FoldHash.HashSeparatesOneBit` | validator/rule_cache/dmhc_rule_cache/compute_hash.cc:393-413 | Two bit strings that differ in exactly one bit have different hashes |
| `FoldHash.HashOfUnit` | validator/rule_cache/dmhc_rule_cache/compute_hash.cc:404-410 | The input bit at the end of the walk from i is folded onto index bit i modulo the width |
| `FoldHash.InTableIffPowerOfTwo` | validator/rule_cache/dmhc_rule_cache/compute_hash.cc:213-213 | Every hash is a valid index exactly when the table size is a power of two |
| `FoldHash.WrapIsMod` | validator/rule_cache/dmhc_rule_cache/compute_hash.cc:237-242 | The position counter that restarts at the width is the bit number modulo the width |
| `ComputeHash.Log2Loop` | validator/rule_cache/dmhc_rule_cache/compute_hash.cc:132-136 | The loop returns the least r with a <= 2^r |
| `ComputeHash.Fold` | validator/rule_cache/dmhc_rule_cache/compute_hash.cc:212-250 | The two nested loops compute the XOR over all input bits b_j of b_j shifted by j modulo the width, however the bits are split into fields |
| `ComputeHash.FoldField` | validator/rule_cache/dmhc_rule_cache/compute_hash.cc:220-243 | One field's chunks extend the fold by exactly that field's bits |
| `ComputeHash.ConvertToBitFields` | validator/rule_cache/dmhc_rule_cache/compute_hash.cc:262-275 | Unpacks the operand fields into one-bit fields in order |
| `ComputeHash.OperandBits` | validator/rule_cache/dmhc_rule_cache/compute_hash.cc:262-275 | The hashed bits are those of pc, ci, op1, op2, op3 and mem in this order, each from its lowest bit up |
| `ComputeHash.ComputeHash` | validator/rule_cache/dmhc_rule_cache/compute_hash.cc:393-413 | Permutes the bits by the cycle walk and folds them |
| `ComputeHash.ComputeHashSet` | validator/rule_cache/dmhc_rule_cache/compute_hash.cc:277-320 | Fills all k hashes of an operand record |
| `ComputeHash.HasherConfigIsValid` | validator/rule_cache/dmhc_rule_cache/compute_hash.cc:277-320 | These hashes meet what the cache proofs assume of their hash functions: every index is inside its G-table |
| `ComputeHash.OneBitApartNeverCollides` | validator/rule_cache/dmhc_rule_cache/compute_hash.cc:277-320 | Two operand records that differ in exactly one hashed bit differ under every hash of the cache |
| `RuleCaches.FiniteRuleCache.InstallRule` | validator/rule_cache/finite_rule_cache/finite_rule_cache.cc:10-27 | The map, ring, position and full flag after an installation, and when the internal error is printed |
| `RuleCaches.QueueStep` | validator/rule_cache/finite_rule_cache/finite_rule_cache.cc:19-26 | An installation appends to the ring's queue and drops the oldest key of a full one |
| `RuleCaches.FiniteBounded` | validator/rule_cache/finite_rule_cache/finite_rule_cache.cc:10-27 | In every run, with flushes and repeated keys, at most `capacity` rules are held, and each is held by the ideal cache after the same run with the same result |
| `RuleCaches.IdealHeldIff` | validator/rule_cache/ideal_rule_cache/ideal_rule_cache.cc:10-33 | The ideal cache holds a key exactly when it was installed since the last flush, with the latest result |
| `RuleCaches.HeldIff` | validator/rule_cache/finite_rule_cache/finite_rule_cache.cc:10-40 | In every run, with flushes and repeated keys, the finite cache holds a key exactly when its last installation came after the last flush and no installation erased it since; numbering the n installations, every earlier one p of the key has p + capacity at most the last one's number or at least n |
| `RuleCaches.InternalErrorIff` | validator/rule_cache/finite_rule_cache/finite_rule_cache.cc:13-14 | In every run the internal error is reached exactly when at least `capacity` rules were installed and the key of the installation `capacity` places back is not held |
| `RuleCaches.FiniteIsFifoIff` | validator/rule_cache/finite_rule_cache/finite_rule_cache.cc:10-27 | In runs without flush, the contents are after every prefix exactly the last min(n, capacity) rules if and only if each installed key is absent or is the oldest of a full ring |
| `RuleCaches.FiniteIsFifo` | validator/rule_cache/finite_rule_cache/finite_rule_cache.cc:10-27 | Runs that install absent keys only, as the validator does between flushes, are one case, and the internal error is not reached |
| `RuleCaches.FlushReachesError` | validator/rule_cache/finite_rule_cache/finite_rule_cache.cc:13-14 | A concrete run without repeated keys, capacity 1, in which a flush makes the internal error reachable |
| `RuleCaches.FlushLosesNewRule` | validator/rule_cache/finite_rule_cache/finite_rule_cache.cc:11-18 | A concrete run in which a flush makes the cache lose the only rule installed since |
| `RuleCaches.RepeatReachesError` | validator/rule_cache/finite_rule_cache/finite_rule_cache.cc:13-14 | A concrete run without flush in which a repeated key makes the internal error reachable |
| `ValidatorTheorems.CacheIsInvisible` | validator/riscv/rv_validator.cc:116-212 | Over every run in which `commit` follows an allowing `validate`, a validator with a cache of correct rules and one without give the same verdicts and halts and end with the same tags, operands and results |
| `ValidatorTheorems.InvisibleUntilExit` | validator/riscv/rv_validator.cc:116-212 | For as long as the process survives, whether or not it survives the whole run |
| `ValidatorTheorems.IdealIsInvisible` | validator/riscv/rv_validator.cc:116-212 | This holds from the start for the ideal cache |
| `ValidatorTheorems.FiniteIsInvisible` | validator/riscv/rv_validator.cc:116-212 | This holds from the start for the finite cache of any capacity |
| `ValidatorTheorems.MultiIsInvisible` | validator/riscv/rv_validator.cc:116-212 | This holds for the multi-hash cache on every run in which no queried record contains another one, none is without any tag, and every installed rule fits: it does not evict the entry it has just recycled and, in a build with assertions, there is room for it at both hops. The process survives such a run |
| `ValidatorTheorems.CommitSurvivesIff` | validator/rule_cache/dmhc_rule_cache/dmhc.cc:291-350 | One commit ends the process, by the assertion or by the self-check, exactly when it installs a rule that does not fit; for records with a pc or a ci tag, or with the same operands |
| `ValidatorTheorems.SurvivesIff` | validator/rule_cache/dmhc_rule_cache/dmhc.cc:291-350 | The process survives a run exactly when every rule it installs fits, for such records |
| `ValidatorTheorems.NeverStaleSuffices` | validator/rule_cache/dmhc_rule_cache/dmhc.cc:315-350 | With room at every installation, a condition on the tables before it under which the rule fits: every slot that names the entry to be recycled belongs to the key stored there |
| `ValidatorTheorems.OneMaskIsInvisible` | validator/riscv/rv_validator.cc:116-212 | For all records with the same operands present, bad pc and ci tags included: the process survives every run without assertions, and with them exactly the runs with room at every installation; on every run it survives the cache is invisible |
| `ValidatorTheorems.OneMaskSurvivesIff` | validator/rule_cache/dmhc_rule_cache/dmhc.cc:291-350 | So the self-check never ends such a run; the same from any related state |
| `ValidatorEnds.ProcessEnds` | validator/riscv/rv_validator.cc:116-212 | Every run of the cache over plain records that ends the process is a legal run of the validator, with a policy that allows everything, in which each record is validated, missed, committed and installed, and the process ends |
| `ValidatorEnds.SelfCheckEndsRun` | validator/riscv/rv_validator.cc:116-212 | So the self-check ends a legal run over incomparable records, with made-up tables |
| `ValidatorEnds.AssertionEndsRun` | validator/riscv/rv_validator.cc:116-212 | And the assertion ends one over records with the same operands |
| `ValidatorCollisions.OneRuleAnswers` | validator/rule_cache/dmhc_rule_cache/dmhc.cc:186-209 | After the first validated and committed instruction, the cache answers a query exactly when the stored record contains it and the two collide in every table |
| `ValidatorCollisions.RunsDifferIff` | validator/riscv/rv_validator.cc:116-212 | On a legal run of one allowed and committed instruction and one that the policy rejects, the validators with and without the multi-hash cache differ exactly when the first record contains the second and the two collide in every table |
| `ValidatorCollisions.CacheIsVisible` | validator/riscv/rv_validator.cc:116-212 | For every choice of permutation tables and every capacity there are a policy whose cacheable outcomes depend on the operands alone and a legal run on which the two validators differ |
| `ValidatorTheorems.HitIsCorrect` | validator/riscv/rv_validator.cc:121-126 | A cache of correct rules answers only what the policy would answer in every context |
| `ValidatorTheorems.InstallKeepsGood` | validator/rule_cache/dmhc_rule_cache/dmhc_rule_cache.cc:32-47 | Installing right after asking keeps all rules correct, although the wrapper uses the operands it was asked for |
| `ValidatorTheorems.FlushKeepsGood` | validator/riscv/rv_validator.cc:111-114 | Flushing keeps all rules correct |
| `ValidatorTheorems.DecideRelated` | validator/riscv/rv_validator.cc:121-140 | Asking the cache and asking the policy give the same verdict, results and cached flag |
| `ValidatorTheorems.ValidateRelated` | validator/riscv/rv_validator.cc:116-141 | One `validate` keeps the two validators related |
| `ValidatorTheorems.CommitRelated` | validator/riscv/rv_validator.cc:143-212 | One `commit` keeps them related, although asking the cache again may overwrite the results |
| `ValidatorTheorems.CommitRemembers` | validator/riscv/rv_validator.cc:205-210 | After a commit of a cacheable outcome the cache answers for its operands, with the committed result if it had no answer before |
| `ValidatorTheorems.FlushForgets` | validator/riscv/rv_validator.cc:111-114 | A flushed cache of any kind answers nothing |
| `ValidatorTheorems.SameOperandsIncomparable` | validator/rule_cache/dmhc_rule_cache/dmhc_rule_cache.cc:50-54 | Records with the same operands present never contain one another |
| `ValidatorMeaning.AddressCarriesOver` | validator/riscv/rv_validator.cc:97-99 | An address given with an instruction that accesses no memory is used by the next load or store without one |
| `ValidatorMeaning.StoreCommitted` | validator/riscv/rv_validator.cc:167-192 | A committed store changes the data and the instruction tag of exactly the addresses that share the stored address's tag |
| `ValidatorMeaning.RegisterZeroConstant` | validator/riscv/rv_validator.cc:162-164 | Register zero keeps its tag over every run |
| `ValidatorMeaning.OnlyCommitsChangeTags` | validator/riscv/rv_validator.cc:143-212 | A run without commits leaves every tag as it was |
| `ValidatorFlow.RegistersFlow` | validator/riscv/rv_validator.cc:143-212 | After any list of validated and committed instructions, the pc, every register and every CSR holds the result of the last instruction that wrote it, told from the decoded instructions and the result flags: a register when it is `rd`, is not 0 and `rdResult` is set, a CSR when the instruction stores to it and `csrResult` is set |
| `ValidatorFlow.MemoryStep` | validator/riscv/rv_validator.cc:167-192 | One validated and committed instruction changes what an access reads exactly when it is a store with `rdResult` whose address shares the tag; a load changes nothing |
| `ValidatorFlow.MemoryFlows` | validator/riscv/rv_validator.cc:167-192 | After any list of instructions, an access reads the result of the last store that reaches it |
| `ValidatorFlow.SourcesFlow` | validator/riscv/rv_validator.cc:214-273 | The pc, register and CSR operands that the policy sees are what the last instructions that wrote them left |
| `ValidatorFlow.MemorySourcesFlow` | validator/riscv/rv_validator.cc:250-268 | The instruction operand is the instruction tag of the word, and the memory operand the data tag at the address given, or given earlier and not used, or base plus immediate, as the last stores left them |
| `ValidatorFlow.RunIsHistory` | validator/riscv/rv_validator.cc:116-212 | Every run of `validate` and `commit`, with any cache, leaves the state of such a list, with the results the policy or the cache gave |
| `ValidatorFlow.NoStoreKeepsMemory` | validator/riscv/rv_validator.cc:167-192 | A run that decodes no store leaves all memory tags as they are |
| `ValidatorFlow.HaltsIff` | validator/riscv/rv_validator.cc:167-192 | `commit` asks to halt exactly after a store with `rdResult` whose address lies in no region |
| `ValidatorFlow.AddImmediateIs` | validator/riscv/rv_validator.cc:241-248 | The address is base plus immediate modulo 2^64 |
| `ValidatorFlow.FatalIff` | validator/riscv/rv_validator.cc:250-262 | The run ends for a missing tag exactly when a load or store reads the bad tag at its address |
| `ValidatorFlow.ContextFor` | validator/riscv/rv_validator.cc:250-268 | The context names the instruction's address and, for a load or store, the memory address |
| `ValidatorFlow.VerdictIs` | validator/riscv/rv_validator.cc:116-141 | The verdict, results and flags in terms of the cache and the policy: permitted exactly when the cache knows the operands or the policy returns 1 |
| `ValidatorFlow.CommitLeaves` | validator/riscv/rv_validator.cc:143-212 | A commit leaves operands, flags and results as they are, except that a cacheable rule the cache already has overwrites the results |
| `RvValidator.TagState.constructor` | validator/riscv/rv_validator.cc:54-61 | The initial tags of the registers, CSRs and pc; register zero may have its own |
| `RvValidator.InitialRegister` | validator/riscv/rv_validator.cc:54-61 | Register 0 starts with its own tag if there is one, every other register with the default |
| `RvValidator.RvValidator.constructor` | validator/riscv/rv_validator.cc:50-52 | The initial results are bad tags marked as present, and nothing has failed |
| `RvValidator.RvValidator.PrepareEval` | validator/riscv/rv_validator.cc:214-273 | The fields after gathering operands are those of the specified step, and a memory word without a tag is reported |
| `RvValidator.RvValidator.Validate` | validator/riscv/rv_validator.cc:116-141 | Verdict and whole new state equal the specified step, for every cache |
| `RvValidator.RvValidator.ValidateAt` | validator/riscv/rv_validator.cc:97-109 | The same for the form with a memory address; the returned flag tells whether the cache knew the gathered operands, and is left over from before when the cache was not asked |
| `RvValidator.RvValidator.Commit` | validator/riscv/rv_validator.cc:143-212 | Halt flag and whole new state equal the specified step |
| `RvValidator.RvValidator.UpdateCache` | validator/riscv/rv_validator.cc:205-210 | A cacheable rule is installed unless the cache has it |
| `RvValidator.RvValidator.FlushRuleCache` | validator/riscv/rv_validator.cc:111-114 | Only the cache changes |
| `RvValidator.TagState.Prepare` | validator/riscv/rv_validator.cc:214-273 | The tag part of gathering operands |
| `RvValidator.TagState.UpdateMemory` | validator/riscv/rv_validator.cc:167-192 | A store writes the data tag and asks to halt when the address is out of range |
| `TagBus.MetaSetCache.Canonize` | validator/riscv/meta_cache.cc:18-26 | Issues the position of the first equal set, appending an absent one |
| `TagBus.CanonizeIsStable` | validator/riscv/meta_cache.cc:18-26 | A canonised set's tag means that set and no other tag does; tags issued before keep their meaning |
| `TagBus.TagBus.TagAt` | validator/include/tag_utils.h:118-142 | Reads through the provider found by the lower bound of the negated address |
| `TagBus.TagBus.SetTagAt` | validator/include/tag_utils.h:118-142 | Assigns through the same provider, and fails exactly when reading does |
| `TagBusTheorems.AddKeepsDisjoint` | validator/include/tag_utils.h:130-132 | A provider that overlaps nothing is filed under its start and leaves the regions disjoint |
| `SocConfiguration.Apply` | validator/src/soc_tag_configuration.cc:97-105 | The bus after all elements have been added |
| `SocConfiguration.ConfiguredDisjoint` | validator/src/soc_tag_configuration.cc:97-105 | Word-aligned elements that do not overlap, listed in any order, give disjoint regions |
| `SocConfiguration.ConfiguredReads` | validator/src/soc_tag_configuration.cc:97-105 | Then every address reads the tag of its element, by either kind of access, and an address of none is out of range |
| `SocConfiguration.AddedRead` | validator/include/tag_utils.h:130-132 | Adding a provider that fits changes what is read inside its region and nothing else |
| `SocConfiguration.AddReplaces` | validator/include/tag_utils.h:130-132 | A provider that begins where another of the same size does takes its place |
| `SocConfiguration.ConfiguredWrite` | validator/src/soc_tag_configuration.cc:97-105 | A tag written to the configured bus is read at exactly the addresses of its element that share it: all of a uniform element, the granule or the word of a heterogeneous one |
| `TagBusTheorems.RegionFound` | validator/include/tag_utils.h:118-127 | An address inside a disjoint region reaches that region's provider at its distance from the base |
| `TagBusTheorems.NoRegion` | validator/include/tag_utils.h:118-127 | An address in no region is out of range |
| `TagBusTheorems.ReadAfterWrite` | validator/include/tag_utils.h:93-112 | A write of either kind changes what an access of either kind reads at exactly the addresses that share its cell or uniform region |
| `TagBusTheorems.SameGranule` | validator/include/tag_utils.h:93-95 | Two data offsets share a cell exactly when they lie in the same granule |
| `TagBusTheorems.DataWriteTouchesOneGranule` | validator/include/tag_utils.h:93-101 | A data-tag write in RAM changes the data tag of exactly the addresses in its granule |
| `TagBusTheorems.InsnWriteTouchesOneWord` | validator/include/tag_utils.h:103-111 | An instruction-tag write in RAM changes the instruction tag of exactly the four addresses of its word |
| `TagBusTheorems.DataTagIsFirstInsnTag` | validator/include/tag_utils.h:93-111 | The data tag of a RAM address is the instruction tag of the first word of its granule |
| `TagBusTheorems.DataWriteRetagsFirstWord` | validator/include/tag_utils.h:93-111 | A data-tag write changes the instruction tag of exactly the first word of the granule |
| `TagBusTheorems.InsnWriteRetagsGranule` | validator/include/tag_utils.h:93-111 | An instruction-tag write changes the data tag of exactly the addresses whose granule begins at its word |
| `TagBusTheorems.WriteKeepsRegions` | validator/include/tag_utils.h:114-143 | Writes leave the regions as they are |
| `ApplyMetadata.Apply` | validator/riscv/rv_validator.cc:69-79 | Tag sets and bus after applying a map are the specified ones; an address out of range stops it |
| `ApplyMetadata.RangeSets` | validator/riscv/rv_validator.cc:71-78 | Applying a range canonises its set first, so the set stays even when no address is in a region |
| `ApplyTheorems.MapApplied` | validator/riscv/rv_validator.cc:69-79 | After the map is applied, every RAM address reads an instruction tag that means exactly the map's tag set there; uncovered addresses keep their tag; old tags keep their meaning |
| `ApplyTheorems.MapAppliedData` | validator/riscv/rv_validator.cc:69-79 | The data tag of every RAM address then means the map's tag set at the beginning of its granule; it is the map's set for the address exactly when the map has the same at both |
| `ApplyTheorems.RangeApplied` | validator/riscv/rv_validator.cc:71-78 | The same for one run |
| `ApplyTheorems.RunsOkIff` | validator/riscv/rv_validator.cc:72-76 | The configuration exception is thrown exactly when some word of the map is in no region |
| `ApplyTheorems.HighUnmapped` | validator/include/tag_utils.h:118-127 | Addresses from 2^63 on reach no provider |
| `ApplyTheorems.FileReachesValidator` | validator/riscv/rv_validator.cc:69-79 | A map saved to a file, loaded and applied: the instruction tag of every RAM address means exactly the original map's tag set there, its data tag the set at the beginning of the granule, and where the map has no tags the old ones stay |
| `ValidatorReadsMap.CodeOperandMeansMap` | validator/riscv/rv_validator.cc:264-270 | After a map is applied, the instruction operand of an instruction in RAM means exactly the map's set for its own word |
| `ValidatorReadsMap.MemoryOperandMeansMap` | validator/riscv/rv_validator.cc:250-262 | The memory operand of a load or store in RAM means the map's set at the beginning of the granule of its address |
| `ValidatorReadsMap.FileReachesPolicy` | validator/riscv/rv_validator.cc:69-79 | Both, from the map that was saved to the file that was loaded and applied |
| `Interning.FindOrAppend` | validator/include/metadata_cache.h:40-46 | Returns the first position of the value in the grown list |
| `Interning.InternKeepsDistinct` | validator/include/metadata_cache.h:40-46 | The list of representatives never holds a value twice |
| `Interning.UniquePosition` | validator/include/metadata_cache.h:40-46 | In such a list equal positions and equal values are the same thing |
| `MetadataMemoryMap.MemoryMap.AddRange` | tagging_tools/metadata_memory_map.cc:62-75 | The regions and representatives after a call are the specified ones; an empty range is ignored |
| `MetadataMemoryMap.MemoryMap.AddRangeToRegion` | tagging_tools/metadata_memory_map.cc:35-60 | One region grown downwards or upwards and tagged |
| `MetadataMemoryMap.MemoryMap.TagWords` | tagging_tools/metadata_memory_map.cc:54-59 | The tagging loop equals the specified update of the words |
| `MetadataMemoryMap.MemoryMap.GetMetadata` | tagging_tools/metadata_memory_map.cc:77-83 | Returns the tags of the first region that contains the address |
| `MemoryMapTheorems.AddWordsMeaning` | tagging_tools/metadata_memory_map.cc:54-59 | The loop unions the tags into exactly the words of the range |
| `MemoryMapTheorems.AddToRegionMeaning` | tagging_tools/metadata_memory_map.cc:35-60 | A region covers the hull afterwards, and exactly the addresses of the range gain the tags |
| `MemoryMapTheorems.AddRangeMeaning` | tagging_tools/metadata_memory_map.cc:62-75 | Adding a range whose hull is clear keeps the regions sorted and disjoint and unions its tags into exactly its addresses |
| `MemoryMapTheorems.StaysDisjointIff` | tagging_tools/metadata_memory_map.cc:67-74 | The regions stay sorted and disjoint exactly when the range, hulled with the chosen region, overlaps no other region |
| `MemoryMapTheorems.BuildMeaning` | tagging_tools/metadata_memory_map.cc:35-83 | After any sequence of such ranges `get_metadata` is the union of the tag sets of all ranges that contain the address, and none if there are none |
| `MemoryMapUnion.AdjacentIff` | tagging_tools/metadata_memory_map.h:71-71 | A word address is adjacent to a region exactly when it is at most one word in front of it or one behind its last word, and the region does not start at address 0 |
| `MemoryMapUnion.AdjacentWraps` | tagging_tools/metadata_memory_map.h:71-71 | Nor is anything adjacent to a region that ends at 2^64 - 4, because the address one word behind it wraps to 0 |
| `MemoryMapUnion.UnionRightIff` | tagging_tools/metadata_memory_map.cc:35-83 | After adding a range, `get_metadata` is the union of the old and the new tags for all tags and addresses exactly when no region in front of the first one it joins (no region at all if it joins none) meets the range and no later region holds tags in it; whether a range joins a region is told from their bounds |
| `MemoryMapUnion.StaysSortedIff` | tagging_tools/metadata_memory_map.cc:67-74 | The regions stay sorted and disjoint exactly when the range, hulled with the first region it joins, overlaps no other |
| `MemoryMapUnion.OneJoinedIsRight` | tagging_tools/metadata_memory_map.cc:35-83 | A range that overlaps or touches exactly one region is unioned |
| `MemoryMapUnion.NoneJoinedIsRight` | tagging_tools/metadata_memory_map.cc:35-83 | So is one that overlaps and touches none |
| `MemoryMapUnion.NestedIsRightIff` | tagging_tools/metadata_memory_map.h:71-71 | A range inside a region, behind its first word, is unioned exactly when the region does not start at address 0 |
| `MemoryMapUnion.TagsLost` | tagging_tools/metadata_memory_map.cc:62-83 | A concrete map of three ranges in which an address covered by two of them has the tags of one only |
| `MemoryMapTheorems.HiddenTags` | tagging_tools/metadata_memory_map.cc:77-82 | When the hull overlaps a later region, that region's tags are hidden |
| `RunIterator.ForwardIterator.Advance` | tagging_tools/metadata_memory_map.h:103-134 | Each call moves to the next run |
| `RunIterator.ForwardIterator.constructor` | tagging_tools/metadata_memory_map.h:138-147 | The begin iterator has all runs ahead of it, the end iterator none |
| `RunIterator.ForwardIterator.TakeRun` | tagging_tools/metadata_memory_map.h:119-133 | One run: its start, pointer and end |
| `RunIterator.CollectRuns` | tagging_tools/metadata_memory_map.h:179-184 | Iterating terminates and yields exactly the runs of the map |
| `RunIterator.MapRunsAt` | tagging_tools/metadata_memory_map.h:119-133 | The runs cover exactly the map and carry its pointers |
| `RunIterator.MapRunsOrdered` | tagging_tools/metadata_memory_map.h:103-134 | The runs are non-empty, word-aligned, ordered and disjoint |
| `RunIterator.RunEndMaximal` | tagging_tools/metadata_memory_map.h:123-126 | All words of a run have one pointer and the next word another |
| `RunIterator.MapRunsMaximalIff` | tagging_tools/metadata_memory_map.h:109-117 | The runs are maximal in the whole map exactly when no two regions touch with the same tags at the seam |
| `RunIterator.SeamSplitsRun` | tagging_tools/metadata_memory_map.h:109-117 | A concrete map of three ranges with such a seam: three words with the same tags come back as two runs |
| `RunIterator.RunsMaximalInTags` | tagging_tools/metadata_memory_map.h:123-126 | In a map without seams, two runs that touch have different tag sets |
| `RunIterator.PointersAreSets` | tagging_tools/metadata_memory_map.h:126-126 | Comparing pointers is comparing tag sets, because each set has one representative |
| `Uleb.UlebWriter.WriteUleb` | tagging_tools/uleb.h:98-108 | Appends exactly the encoding of the value |
| `Uleb.WriterEndsIff` | tagging_tools/uleb.h:98-108 | Writing a signed value, which the loop shifts rounding down, ends exactly when the value is not negative |
| `Uleb.UlebReader.ReadUleb` | tagging_tools/uleb.h:63-74 | Reads the value and position of the specified decoding, 0 bytes on a truncated input |
| `Uleb.DecodeEncode` | tagging_tools/uleb.h:63-108 | Reading what was written gives the value and leaves exactly the bytes that follow |
| `Uleb.ReadEncode` | tagging_tools/uleb.h:63-74 | The same for a typed read of a value that fits the type |
| `Uleb.EncodeIsShortest` | tagging_tools/uleb.h:98-108 | No encoding of a value is shorter than the writer's |
| `Uleb.EncodeLength` | tagging_tools/uleb.h:98-108 | A value takes at most n bytes exactly when it is below 2^(7n) |
| `Uleb.EncodedByte` | tagging_tools/uleb.h:98-108 | Byte i holds bits 7i to 7i + 6, and its high bit tells that more bytes follow |
| `Uleb.EncodeAllInjective` | tagging_tools/uleb.h:98-108 | Concatenated values decode uniquely |
| `SetOrder.ElementsAreAll` | tagging_tools/tag_file.cc:337-340 | Iterating a set and inserting what was read gives the set back |
| `SetOrder.ElementsAscend` | tagging_tools/tag_file.cc:337-340 | Elements are written in increasing order |
| `TagInfo.SaveMetadata` | tagging_tools/tag_file.cc:326-344 | The bytes written are the word size and one record for each run |
| `TagInfo.RecordBytes` | tagging_tools/tag_file.cc:332-341 | A record is its start, its end, the number of its tags and the tags, in this order |
| `TagInfo.LoadMetadata` | tagging_tools/tag_file.cc:346-374 | The result, word size and map for every input; records before a malformed one stay added |
| `TagInfo.ParseRecordsInverts` | tagging_tools/tag_file.cc:353-373 | Reading records back gives the same list and success |
| `TagInfo.ParseFileInverts` | tagging_tools/tag_file.cc:346-374 | Reading a file back gives the word size and the records |
| `TagInfoTheorems.LeftToRightIsClear` | tagging_tools/tag_file.cc:371-371 | Ranges added from left to right never overlap another region's hull |
| `TagInfoTheorems.LoadOfSave` | tagging_tools/tag_file.cc:326-374 | Loading a saved gap-free map succeeds with the same word size and the same tags at every address |
| `TagInfoTheorems.LoadedHasNoGaps` | tagging_tools/tag_file.cc:326-374 | The loaded map has no gaps, so it can be saved again |
| `FirmwareTagFile.WriteHeaders` | tagging_tools/tag_file.cc:49-79 | The header bytes: word size flag, code ranges, data ranges with granularity |
| `FirmwareTagFile.SaveTagIndexes` | tagging_tools/tag_file.cc:81-147 | Succeeds exactly when every register and CSR name is known, and then has written the tag sets, index tables, defaults and memory indexes |
| `FirmwareTagFile.SaveEndsIff` | tagging_tools/tag_file.cc:81-147 | Saving ends exactly when no default it reaches is negative: the register default always, the CSR default if all register names are known, and the environment's if the CSR names are too. With the -1 of a missing register default it does not end; with that of a missing CSR default only an unknown register name ends it |
| `FirmwareTagFile.WriteNames` | tagging_tools/tag_file.cc:101-131 | One table of names; an unknown last name part is reported |
| `FirmwareTagFile.LoadFirmwareTagFile` | tagging_tools/tag_file.cc:376-504 | Success, contents and remaining input for every input |
| `FirmwareTagFile.ReadNames` | tagging_tools/tag_file.cc:444-484 | One table of names; an unknown code fails, a repeated name keeps its first index |
| `FirmwareTagTheorems.LoadOfSave` | tagging_tools/tag_file.cc:49-504 | Loading what was saved recovers code ranges, data ranges, tag sets, memory indexes, register and CSR indexes and defaults, and stops at the end of the input |
| `FirmwareTagTheorems.RegistersRecovered` | tagging_tools/tag_file.cc:101-112 | With distinct codes, each register is loaded under its own last name part with its index, and nothing else is loaded |
| `FirmwareTagTheorems.LoadedIndexesResolve` | tagging_tools/tag_file.cc:267-504 | Every memory range and register whose index resolved to its tag set before the file was written resolves to it in the loaded list |
| `FirmwareTagTheorems.NamedFirst` | tagging_tools/tag_file.cc:458-463 | Of several rows with one name the first decides the index |
| `FirmwareTagTheorems.NamedIsSame` | tagging_tools/tag_file.cc:444-484 | The loaded index map against the saved one, for any table without ambiguous names |
| `FirmwareTagTheorems.PlacedIsMemory` | tagging_tools/tag_file.cc:488-501 | The memory index map comes back whole |
| `FirmwareTagTheorems.HeadersInvert` | tagging_tools/tag_file.cc:49-79 | The headers come back; data granularities are dropped |
| `FirmwareTagTheorems.HeadersRead` | tagging_tools/tag_file.cc:49-79 | A reader of the format finds the number 1 for a 64-bit program and 0 for a 32-bit one, then the bounds of the code ranges, then the bounds and granularities of the data ranges |
| `FirmwareTagTheorems.IndexesRead` | tagging_tools/tag_file.cc:81-147 | After the headers a reader finds the tag sets, the register default and rows, the CSR default and rows, the environment's default and the memory rows |
| `FirmwareTagTheorems.RowColumns` | tagging_tools/tag_file.cc:101-146 | A name's row holds the code of its last part and its index, a memory row the bounds of its range and its index |
| `LoadedTags.LoadedFits` | tagging_tools/tag_file.cc:376-504 | Whatever the bytes, what is loaded fits its types: 64-bit bounds and tag numbers, 32-bit indexes and signed 32-bit defaults |
| `TruncatedFiles.TruncatedTagsRejected` | tagging_tools/tag_file.cc:376-504 | A firmware tag file that is cut short anywhere is rejected |
| `TruncatedFiles.TruncatedRecords` | tagging_tools/tag_file.cc:353-373 | A map file whose records are cut short loads as some of the first records; the loader reports success exactly when the cut is between two records |
| `TruncatedFiles.TagsExtend` | tagging_tools/tag_file.cc:376-504 | A successful load does not depend on the bytes after the ones it consumes |
| `TagRows.ParseTableInverts` | tagging_tools/tag_file.cc:402-425 | A counted table of rows comes back, whatever bytes follow |
| `TagRows.ParseSetTableInverts` | tagging_tools/tag_file.cc:427-442 | A counted table of tag sets comes back, whatever bytes follow |
| `TagRows.ParseIndexTableInverts` | tagging_tools/tag_file.cc:444-464 | A table of codes and indexes comes back with its non-negative default |
| `RegisterNames.RegisterCodesDistinct` | tagging_tools/register_name_map.h:7-73 | No two registers share a code |
| `RegisterNames.RegisterCodesAreStandard` | tagging_tools/register_name_map.h:7-73 | The 65 names are the RISC-V ones under their standard numbers: integer registers 0 to 31, floating point registers 32 to 63, the pc 64 |
| `RegisterNames.NameSurvives` | tagging_tools/register_name_map.h:7-73 | Where codes are distinct, name to code to name is the identity |
| `RegisterNames.CodeSurvives` | tagging_tools/register_name_map.h:76-100 | Where codes are shared, the code still survives the round trip |
| `RegisterNames.LastPartFinds` | tagging_tools/tag_file.cc:107-107 | The last part of a dotted name is found behind any prefix |
| `MetadataIndexMap.IndexMap.constructor` | tagging_tools/metadata_index_map.h:40-58 | The index map and list after the loop |
| `MetadataIndexMap.PositionsResolve` | tagging_tools/metadata_index_map.h:42-48 | Every key's position in the finished list holds its tag set |
| `MetadataIndexMap.MergeIsList` | tagging_tools/tag_file.cc:273-277 | Merging the list of an index map that started from the merged values gives that list |
| `MetadataIndexMap.MergeAll` | tagging_tools/tag_file.cc:267-292 | After all four merges the list has no duplicates and every memory, register, SOC and CSR key resolves in it to its tag set |
| `MetadataIndexMap.MemoryKeysDistinct` | tagging_tools/tag_file.cc:269-269 | The runs of a memory map have different ranges, so no index overwrites another |
| `CoalesceRanges.Coalesce` | tagging_tools/tag_file.cc:193-211 | The loop terminates on every non-empty list and returns the coalesced list |
| `CoalesceRanges.SortSorts` | tagging_tools/tag_file.cc:194-194 | The sorted list is ascending and a permutation |
| `CoalesceRanges.SortedPairs` | tagging_tools/tag_file.cc:194-194 | Sorted ranges are ordered by their starts, those with the same start by their ends |
| `CoalesceRanges.CoalescedCovers` | tagging_tools/tag_file.cc:193-211 | The covered addresses are exactly those of the input |
| `CoalesceRanges.CoalescedClimbs` | tagging_tools/tag_file.cc:193-211 | Starts do not decrease and ends strictly increase |
| `CoalesceRanges.CoalescedSeparatedIff` | tagging_tools/tag_file.cc:202-205 | The result has no touching or overlapping ranges exactly when no sorted range starts before the furthest end so far and reaches beyond it |
| `CoalesceRanges.OverlapStays` | tagging_tools/tag_file.cc:202-205 | A concrete pair of overlapping ranges that comes back unmerged |
| `CoalesceRanges.CoalescedIsMinimal` | tagging_tools/tag_file.cc:193-211 | For pairwise disjoint input the result is the only list that leaves gaps between its ranges, and no list for the same addresses is shorter |

## Left out

- DmhcTheorems: runs that mix operand masks, where exact-key claims are false; `DmhcMixed` states what holds there.
- Dmhc.Dmhc.RealInsert: `no_evict` with its exit code 100. After a failed assertion the model goes on as a build without assertions would and records the exit code.
- DmhcRuleCache.DmhcRuleCache.InstallRule: after a failed assertion or self-check the process is gone; the model records the exit code instead.
- ComputeHash.ComputeHashSet: hash branches 0 to 3, the precomputed-position hash and its `#ifdef` variants, which are not compiled in.
- ValidatorTheorems.MultiIsInvisible: covers runs in which no queried record contains another; without that the cache can be seen, as `RunsDifferIff` states exactly for two instructions and `CacheIsVisible` for all tables. Longer runs that happen not to collide are not covered.
- DmhcSelfCheck.InsertPassesIff: operands with neither a pc nor a ci tag and results that are all zero, for which a revived blank entry may pass the self-check; `SparedPasses` covers one direction.
- SocConfiguration.Apply: reading the SOC file; the word size and the granularity of a uniform element, which are stored and not used.
- ValidatorMeaning.AddressCarriesOver: states what the code does, not whether a caller wants it.
- RvValidator.RvValidator.constructor: reading the policy directory and the SOC file, and `config_rule_cache`, which picks a cache by name; the cache is an argument.
- RvValidator.RvValidator.Commit: watchpoints and printing; the halt flag covers lost stores only.
- RvValidator.TagState: the fields of the validator are split over two classes, one for the tags and one for the results and the cache.
- RvValidator.RvValidator.Validate: `policy_result`, `failed_ctx` and `failed_ops`, which only feed messages, and the hit and miss statistics.
- The set of tag sets the policy code itself canonises while it runs; the tag of the empty set is a constant of the environment.
- TagBus.MetaSetCache.Canonize: the bit set that represents a tag set; the model uses the set itself.
- HashCollisions.TwoRecordsCollide: capacities above 2^30, for which the size of a hash table does not fit a C++ `int`.
- TagBus.TagBus.AddTagProvider: the unused end address of a provider, and references that outlive a call.
- MemoryMapTheorems.BuildMeaning: unaligned ranges, and ranges that end in the last word of the address space, where adjacency wraps.
- MetadataMemoryMap.MemoryMap.GetMetadata: the exception of `mem.at` for an index past the region, which word-aligned maps never reach.
- MetadataMemoryMap.MemoryMap.AddRangeToRegion: narrowing of word indexes to `int`.
- RunIterator.ForwardIterator.Advance: iterator comparison and copies of iterators.
- Uleb.UlebWriter.WriteUleb: the bytes written for a negative value before memory or the disk is full; `WriterEndsIff` says that there is no end.
- Uleb.UlebReader.ReadUleb: encodings longer than the type, where the C++ shift is undefined; the model drops the bits that do not fit.
- TagInfo.SaveMetadata: I/O errors and files that cannot be opened.
- TagInfoTheorems.LoadOfSave: tag sets with 2^32 or more elements, whose 64-bit count is read back as 32 bits.
- FirmwareTagTheorems.LoadOfSave: the word size flag and the data granularities, which the loader reads and drops; CSR names, of which only the code survives.
- FirmwareTagFile.LoadFirmwareTagFile: what the output lists hold after a failure.
- RegisterNames.RegisterCodesDistinct: the CSR table, which is a parameter with distinct names.
- MetadataIndexMap.MergeAll: taking the default and environment entries out of the index maps, SOC exclusion and granularity lookup.
- CoalesceRanges.Coalesce: the empty list, on which the code is undefined, and ranges whose end is before their start.
- Instruction decoding, ELF, YAML and command-line handling, entity binding, annotation and the simulator callbacks.
