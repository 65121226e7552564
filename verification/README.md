# Ravine ECS archetype storage, modelled in Dafny

This project models the storage core of the Ravine entity-component system.
An entity is a row of components. All entities with the same set of component
types form one archetype. Each archetype has one group in the storage of each
of its types.

- **FastMath** (`src/ravine/ecs/FastMath.h`): the 32-bit `signMask`, `min` and
  `max` tricks, `highestPowerOfTwoIn`, and `getMaskCombinations`. That function
  enumerates the sums of every non-empty subset of a list of type identities.
- **Masks** (`src/ravine/ecs/TemplateMaskPack.h`, `GroupMask`/`GroupMaskCmp` in
  `src/ravine/ecs/ComponentsGroup.hpp`): a pack of type identities folded into
  one sum, the mask of an archetype, and the order the storages sort masks in.
- **Groups** (`ComponentsGroup<T>`): a group is a slice `[base, base + size)` of
  the storage buffer, used as a cyclic buffer whose logical start is at `tip`.
  Its logical contents (`View`) are the run from the tip to the slice end, then
  the run from the slice start to the tip. The module covers the group's
  add, shift, roll, compress and remove operations.
- **EntityGroups** (`src/ravine/ecs/EntityGroup.hpp`): the same group for
  `EntityProxy` records. Each record carries its own logical index
  (`groupId`), and every move is logged as `EntityLookup` pairs.
- **Storage, Adding, Removal, Lookup** (`src/ravine/ecs/ComponentStorage.hpp`):
  - the storage of one type keeps its groups sorted by mask;
  - the groups tile a single buffer without gaps;
  - a combination registry maps a query key to the masks of the groups it
    matches;
  - the module covers grow, group creation and registration, batch and single
    add, single and batch removal, and iterator lookup.
- **Iterators** (`src/Core/ComponentsIterator.hpp`): `CompIt` over the two runs
  of a group and `CompGroupIt` over up to 50 groups.
- **Registry, Deferred** (`src/ravine/ecs/EntityRegistry.hpp`): the static
  state of the registry, gathered into one `World` value. It covers
  - entity creation and immediate removal;
  - the deferred `lateRemoveEntity`, and the flush that carries it out;
  - `getComponentIterators`.
- **Dispatch** (`src/ravine/ecs/BaseSystem.hpp`): `FetchPack` and
  `updateUnfold`. The callback invocations are recorded as a list of calls.

How the model represents the source:

- Storage singletons are identified by abstract integers, the values their
  `getInstance()` addresses would have.
- Buffers are sequences. A buffer slot that is allocated but never written
  holds a caller-supplied value `junk`.
- Every operation is a pure function from the old state to the new one.
- A few operations are methods with loop invariants: `getMaskCombinations`,
  `MakeGroupMask`, `updateUnfold` and the per-group dispatch loop.
- Where the code does not do what it evidently means to, two definitions are
  kept. The as-written one exhibits the discrepancy. The corrected one is used
  by the rest of the model (see "Findings").

## Model

| member | source | states |
|---|---|---|
| FastMath.SignMask | src/ravine/ecs/FastMath.h:8-15 | the shifted sign bit of a 32-bit value is 1 exactly for negative values |
| FastMath.Min | src/ravine/ecs/FastMath.h:17-28 | the branch-free min returns one of its arguments, and the smaller one whenever a - b does not overflow 32 bits |
| FastMath.Max | src/ravine/ecs/FastMath.h:30-41 | the branch-free max returns one of its arguments, and the larger one whenever a - b does not overflow 32 bits |
| FastMath.MinMaxComplementary | src/ravine/ecs/FastMath.h:17-41 | min and max always split the pair: their sum is a + b, overflow or not |
| FastMath.MinOverflowPicksLarger | src/ravine/ecs/FastMath.h:17-28 | when a - b overflows, the trick picks the wrong value: min(INT32_MIN, 1) is 1 |
| FastMath.HighestPowerOfTwoIn | src/ravine/ecs/FastMath.h:43-57 | the result is 0 for 0, and otherwise a power of two that is at most x and above x >> 1 (the highest one in x) |
| FastMath.HighestPowerOfTwoInIsNotAbove | src/ravine/ecs/FastMath.h:43-57 | for 5 the result is 4: the largest power of two not above x, not the one just above it |
| FastMath.Cursor | src/ravine/ecs/FastMath.h:87-92 | the corrected cursor is the last index that can still be advanced, and no index after it can |
| FastMath.CursorAsWrittenSkipsTuple | src/ravine/ecs/FastMath.h:87-105 | with 4 seeds the as-written step goes from [0,1,2] to [0,2,3], skipping the valid tuple [0,1,3] that the corrected step yields |
| FastMath.CombsValid | src/ravine/ecs/FastMath.h:66-105 | every enumerated k-tuple is strictly increasing and within the seed range |
| FastMath.NextWalksCombs | src/ravine/ecs/FastMath.h:87-101 | the corrected step maps each k-tuple to the next one in the enumeration |
| FastMath.CombsLexSorted | src/ravine/ecs/FastMath.h:78-105 | the k-tuples come in strictly increasing lexicographic order |
| FastMath.EachSubsetExactlyOnce | src/ravine/ecs/FastMath.h:59-110 | every non-empty increasing tuple of seed indices is enumerated, and none twice |
| FastMath.CountAll | src/ravine/ecs/FastMath.h:62 | summed over all sizes, the numbers of tuples add up to 2^n, hence 2^n - 1 non-empty ones |
| FastMath.SumsOfSize | src/ravine/ecs/FastMath.h:68-105 | one band of the loop produces the seed sum of every k-tuple, in enumeration order |
| FastMath.GetMaskCombinations | src/ravine/ecs/FastMath.h:59-110 | the count is 2^n - 1, and the list holds the sum of each non-empty subset of the seeds, by size and then in lexicographic order |
| Masks.PackMaskConcat | src/ravine/ecs/TemplateMaskPack.h:13-26 | the mask of a concatenated pack is the sum of the two packs' masks |
| Masks.PackMaskPermutation | src/ravine/ecs/TemplateMaskPack.h:13-26 | packs that list the same identities in any order have the same mask |
| Masks.MakeGroupMask | src/ravine/ecs/ComponentsGroup.hpp:276-294 | the GroupMask of a pack records the pack's length and its mask |
| Masks.LessIsStrictTotalOrder | src/ravine/ecs/ComponentsGroup.hpp:299-312 | GroupMaskCmp is irreflexive, transitive and asymmetric, and any two distinct masks are comparable |
| Masks.SubsetSumIsPackMask | src/ravine/ecs/FastMath.h:81-85 | a subset sum computed by getMaskCombinations is the mask of the sub-pack it selects |
| Masks.SubsetMaskInSubsetSums | src/ravine/ecs/FastMath.h:59-110 | the mask of any non-empty duplicate-free sub-pack occurs among the combinations |
| Groups.ViewIsRuns | src/ravine/ecs/ComponentsGroup.hpp:15-18 | a group's logical contents are the run from the tip to the slice end followed by the run below the tip |
| Groups.GetComponent | src/ravine/ecs/ComponentsGroup.hpp:215-219 | the address of logical index id lies inside the group's slice |
| Groups.GetComponentReadsView | src/ravine/ecs/ComponentsGroup.hpp:215-219 | reading the buffer at getComponent(id) yields the group's id-th logical record |
| Groups.GetLastComponentReadsLast | src/ravine/ecs/ComponentsGroup.hpp:221-225 | reading the buffer at getLastComponent() yields the last logical record |
| Groups.AddComponent | src/ravine/ecs/ComponentsGroup.hpp:106-129 | the batch is split into a part written after the slice end and a part written just below the tip; size grows by the first part; nothing outside those slots changes |
| Groups.ShiftClockwise | src/ravine/ecs/ComponentsGroup.hpp:254-265 | the group grows by min(count, tip) slots, keeping its logical contents as a prefix and writing nothing outside its new slice |
| Groups.ShiftThenAddAppends | src/ravine/ecs/ComponentsGroup.hpp:106-129 | shiftClockwise(n) followed by addComponent of n records appends exactly those records to the logical contents |
| Groups.ShiftAndAdd | src/ravine/ecs/ComponentsGroup.hpp:254-265 | the composite add grows the group by the batch size, and its contents become the old contents followed by the batch |
| Groups.RollClockwise | src/ravine/ecs/ComponentsGroup.hpp:227-238 | the group moves count slots up with its logical contents intact, writing only the count slots above its old end |
| Groups.RollCounterClockwiseAsWritten | src/ravine/ecs/ComponentsGroup.hpp:240-252 | as written, the base drops by min(base, count, size) and the contents survive only when min(base, count) is at most size |
| Groups.RollCounterClockwiseAsWrittenLosesRecord | src/ravine/ecs/ComponentsGroup.hpp:240-252 | buffer [7,8,9], group base 2 size 1 tip 0, count 2: as written the group reads [8]; corrected it reads [9] |
| Groups.RollCounterClockwiseAsWrittenStrandsEmptyGroup | src/ravine/ecs/ComponentsGroup.hpp:240-252 | an empty group never moves down as written; the corrected roll moves it |
| Groups.RollCounterClockwise | src/ravine/ecs/ComponentsGroup.hpp:240-252 | corrected: the group moves min(base, count) slots down, keeping size and logical contents, writing only the slots just below its old base |
| Groups.CountBelowSplits | src/ravine/ecs/ComponentsGroup.hpp:137-144 | the count of sorted positions before the right run splits the list exactly at that boundary |
| Groups.CompressRight | src/ravine/ecs/ComponentsGroup.hpp:146-177 | compressing the right run keeps its survivors, in order, at the front of the run |
| Groups.CompressLeft | src/ravine/ecs/ComponentsGroup.hpp:179-204 | compressing the left run keeps its survivors, in order, at the back of the run |
| Groups.Compress | src/ravine/ecs/ComponentsGroup.hpp:131-207 | after both compressions and the base/tip update, the group's contents are the old contents with exactly the listed positions deleted; nothing outside the slice changes |
| Groups.RemComponent | src/ravine/ecs/ComponentsGroup.hpp:131-213 | corrected remComponent: the base is unchanged, size drops by the number of positions, the contents are the old contents minus those positions, and the return value counts the positions in the right run |
| Groups.RemComponentAsWritten | src/ravine/ecs/ComponentsGroup.hpp:131-213 | as written the contents and base are right only when the left-run removals do not exceed the new size |
| Groups.RemComponentAsWrittenLosesRecord | src/ravine/ecs/ComponentsGroup.hpp:205-210 | buffer [7,8,9], group base 0 size 3 tip 2, removing positions 1 and 2: as written the group ends at base 1 reading [8]; corrected it stays at base 0 reading [9] |
| EntityGroups.LookupLessIsStrictWeakOrder | src/ravine/ecs/EntityGroup.hpp:15-21 | the EntityLookup comparison is a strict weak order whose equivalence is equal entity id |
| EntityGroups.AddLabelAsWrittenAgrees | src/ravine/ecs/EntityGroup.hpp:137-165 | the as-written groupId stamps equal the logical indices exactly when the tip is 0 or the batch fits below the tip |
| EntityGroups.AddComponentAsWritten | src/ravine/ecs/EntityGroup.hpp:122-167 | as written: the records are placed as in the generic group, and the log grows by one entry per record carrying the as-written label |
| EntityGroups.AddComponentAsWrittenMislabels | src/ravine/ecs/EntityGroup.hpp:139-150 | group base 0 size 2 tip 1, adding entities 20 and 30: entity 20 sits at logical index 1 but is stamped 2 |
| EntityGroups.EntityAddComponent | src/ravine/ecs/EntityGroup.hpp:122-167 | corrected: same placement, and each logged record carries its logical index |
| EntityGroups.ShiftThenAddLabels | src/ravine/ecs/EntityGroup.hpp:122-167 | shift then corrected add appends the entities, keeps every groupId equal to its logical index, and logs size + k for the k-th new entity |
| EntityGroups.RemComponentAsWritten | src/ravine/ecs/EntityGroup.hpp:171-275 | as written: size drops by the number of positions, the return value splits the positions at the right run, and the log only grows |
| EntityGroups.RemComponentAsWrittenMislabels | src/ravine/ecs/EntityGroup.hpp:252-265 | records (1,1),(2,2),(3,0), group base 0 size 3 tip 2, removing position 2: as written entity 1 ends at index 1 labelled 0; corrected it is labelled 1 |
| EntityGroups.EntityRemComponent | src/ravine/ecs/EntityGroup.hpp:171-275 | corrected: the entity ids are the old ones minus the removed positions; records before the first moved one are untouched; every moved record's groupId is its new index, and the log lists exactly the moved records; labelled groups stay labelled |
| EntityGroups.MovesKeepLabels | src/ravine/ecs/EntityGroup.hpp:284-319 | rolling a labelled group either way keeps every groupId equal to its logical index, and so does shifting it for the old records |
| EntityGroups.Relabel | src/ravine/ecs/EntityGroup.hpp:252-265 | records from index `from` on get their index as groupId; the others and everything outside the slice are untouched |
| Storage.GrownCapacity | src/ravine/ecs/ComponentStorage.hpp:90-99 | the new capacity covers both the old and the requested one, and strictly exceeds the old one once it is 5 or more |
| Storage.Grow | src/ravine/ecs/ComponentStorage.hpp:90-99 | grow keeps the old buffer as the prefix of the larger one and leaves the storage valid |
| Storage.GetRegistryEntry | src/ravine/ecs/ComponentStorage.hpp:230-247 | the entry for the key exists afterwards, empty if it was new; every other entry is unchanged |
| Storage.Register | src/ravine/ecs/ComponentStorage.hpp:214-224 | the mask joins the key's set and nothing else changes |
| Storage.RegisterAllFacts | src/ravine/ecs/ComponentStorage.hpp:214-224 | registering under self plus every combination adds the mask to exactly those keys |
| Storage.SelComb | src/ravine/ecs/ComponentStorage.hpp:203-212 | the selection is the pack with its own identity taken out once |
| Storage.SelCombFacts | src/ravine/ecs/ComponentStorage.hpp:203-212 | the selection holds every other identity of the pack and nothing else, and has no duplicate when the pack has none |
| Storage.LowerBound | src/ravine/ecs/ComponentStorage.hpp:183-187 | the insertion point has only smaller masks before it and none smaller at it |
| Storage.LowerBoundSplits | src/ravine/ecs/ComponentStorage.hpp:183-187 | over sorted groups the insertion point separates smaller masks from the rest, and the mask is present exactly when the group at that point has it |
| Storage.InsertGroup | src/ravine/ecs/ComponentStorage.hpp:190-200 | a new empty group is inserted where its predecessor ends, shifting the later groups one index on |
| Storage.RegisterGroupFacts | src/ravine/ecs/ComponentStorage.hpp:202-224 | a new group's mask is registered under the storage's own key and under own key plus every combination of the other identities, and nowhere else |
| Storage.GetComponentGroup | src/ravine/ecs/ComponentStorage.hpp:175-228 | an existing mask leaves the storage unchanged; a new one gets an empty group at its sorted place and is registered; the storage stays valid |
| Storage.QueryFindsNewGroup | src/ravine/ecs/ComponentStorage.hpp:202-224 | after creating a group, any sub-pack that contains the storage's own type finds the new mask in the registry |
| Storage.AddToGroup | src/ravine/ecs/ComponentStorage.hpp:143-160 | the later groups are rolled up, the target grows by the batch, the earlier groups are untouched, and size grows by the batch |
| Storage.AddToGroupContents | src/ravine/ecs/ComponentStorage.hpp:143-160 | the batch is appended to the target group's contents and every other group's contents are unchanged |
| Adding.AddCapacity | src/ravine/ecs/ComponentStorage.hpp:135-139 | capacity is kept when the batch fits, and grows once it is reached (from 5 on) |
| Adding.Reserve | src/ravine/ecs/ComponentStorage.hpp:130-141 | the group for the mask exists afterwards, registered if new, with the capacity AddCapacity gives |
| Adding.ReserveContents | src/ravine/ecs/ComponentStorage.hpp:130-141 | growing and finding the group changes no group's contents, apart from giving a new mask an empty group |
| Adding.AddComponent | src/ravine/ecs/ComponentStorage.hpp:130-163 | the storage stays valid, size grows by the batch, and the returned index names the group of the mask |
| Adding.AddComponentContents | src/ravine/ecs/ComponentStorage.hpp:130-163 | the batch is appended to the contents of the mask's group, and every other group is unchanged |
| Adding.AddComponentRegistry | src/ravine/ecs/ComponentStorage.hpp:130-163 | the registry changes only when the mask is new, by registering its group |
| Adding.GrowContents | src/ravine/ecs/ComponentStorage.hpp:90-99 | growing the buffer leaves every group's contents unchanged |
| Adding.AddOne | src/ravine/ecs/ComponentStorage.hpp:165-173 | the single add keeps the storage valid, and returns a slot that holds the new record |
| Adding.AddOneContents | src/ravine/ecs/ComponentStorage.hpp:165-173 | the single record is appended to its group's contents |
| Adding.LastRecordAdded | src/ravine/ecs/ComponentStorage.hpp:165-173 | after a single add, getLastComponent of the group addresses the new record |
| Adding.AddOneThenRemoveRestores | src/ravine/ecs/ComponentStorage.hpp:165-173 | removing the record just added, at its index, gives back the original contents |
| Removal.SweepCorrect | src/ravine/ecs/ComponentStorage.hpp:276-301 | the corrected sweep leaves each group with its listed positions deleted, rolled down by the number removed before it |
| Removal.RemoveComponents | src/ravine/ecs/ComponentStorage.hpp:270-303 | corrected batch removal: the storage stays valid and tiled, and each group's contents lose exactly the positions listed for its mask |
| Removal.RemoveComponentsContents | src/ravine/ecs/ComponentStorage.hpp:270-303 | in terms of contents: each mask's records lose exactly the positions listed for that mask |
| Removal.RemoveComponent | src/ravine/ecs/ComponentStorage.hpp:256-268 | the record at pos leaves the mask's group; every other group keeps its contents; the storage stays valid |
| Removal.RemoveComponentContents | src/ravine/ecs/ComponentStorage.hpp:256-268 | in terms of contents: only the mask's records change, losing the one at pos |
| Removal.RemoveComponentsAsWritten | src/ravine/ecs/ComponentStorage.hpp:286-290 | the as-written gap accounting (the sum of remComponent's return values), over the corrected remComponent and roll: only the buffer and groups change, the buffer keeps its length, every group keeps its mask, and the groups before the first listed mask are untouched |
| Removal.RemoveComponentsAsWrittenLeavesGap | src/ravine/ecs/ComponentStorage.hpp:286-290 | two groups, removals only in the first group's left run: the second group is not moved down, a gap is left, and the groups no longer tile the buffer |
| Removal.RemoveComponentsClosesGap | src/ravine/ecs/ComponentStorage.hpp:286-290 | corrected: the next group moves down by the number removed and starts where the first group now ends |
| Removal.GapExampleQualifies | src/ravine/ecs/ComponentStorage.hpp:270-303 | a valid two-group storage meets the gap lemma's conditions, so they can be met |
| Iterators.DefaultCompIt | src/Core/ComponentsIterator.hpp:16 | the default iterator is empty |
| Iterators.MakeCompIt | src/Core/ComponentsIterator.hpp:17-20 | the iterator reports the given size and the given offset |
| Iterators.GetChunkAddressesView | src/Core/ComponentsIterator.hpp:22-34 | the chunk pointer for logical index id addresses that record inside the group |
| Iterators.TwoChunksReadView | src/Core/ComponentsIterator.hpp:22-34 | the chunks at 0 and after the first run stay inside the slice and together read the whole group in logical order |
| Iterators.GetChunkAligned | src/Core/ComponentsIterator.hpp:22-34 | corrected: the chunk at id spans only what remains of id's run |
| Iterators.MakeCompGroupIt | src/Core/ComponentsIterator.hpp:37-55 | at most 50 groups, one iterator per group, in order |
| Lookup.AscendingFacts | src/ravine/ecs/ComponentStorage.hpp:101-127 | the ascending listing holds each registered mask once, in strictly increasing GroupMaskCmp order |
| Lookup.RegistryOrder | src/ravine/ecs/ComponentStorage.hpp:101-127 | walking the groups in storage order meets the registered masks in ascending order, and each is the mask of a group |
| Lookup.GetComponentIterator | src/ravine/ecs/ComponentStorage.hpp:101-127 | an unknown key gives no iterators; otherwise one iterator per registered mask, in ascending order, each over that mask's group |
| Registry.NewStore | src/ravine/ecs/ComponentStorage.hpp:55 | a new storage is valid, empty, and has no groups |
| Registry.Records | src/ravine/ecs/EntityRegistry.hpp:143-156 | an entity's records are its proxy followed by its components in order |
| Registry.AddRecords | src/ravine/ecs/EntityRegistry.hpp:143-156 | storages outside the entity's types are unchanged, and all storages stay valid |
| Registry.AddRecordsAt | src/ravine/ecs/EntityRegistry.hpp:136-156 | each type's storage gains exactly its record, appended to the archetype's group |
| Registry.StorageIterators | src/ravine/ecs/EntityRegistry.hpp:122-127 | for a storage that exists, its iterators for the key; for one that does not, none |
| Registry.GetComponentIterators | src/ravine/ecs/EntityRegistry.hpp:129-134 | one iterator list per listed type, each as long as that storage's registry entry for the pack's key, empty when there is none |
| Registry.IteratorsOrderFree | src/ravine/ecs/EntityRegistry.hpp:129-134 | listing the same types in another order gives each type the same iterators |
| Registry.Create | src/ravine/ecs/EntityRegistry.hpp:158-188 | the new id is taken from the vacancy front, or else is the registry length; the entry records the id, groupId and types; other entries are untouched |
| Registry.CreateEntity | src/ravine/ecs/EntityRegistry.hpp:158-188 | as written the new entry carries groupId -1, so the entity cannot be handed to removeEntity |
| Registry.FreshId | src/ravine/ecs/EntityRegistry.hpp:164-176 | from an empty vacancy queue the id is the registry length and the registry grows by one |
| Registry.CreateEntityCorrected | src/ravine/ecs/EntityRegistry.hpp:178-186 | corrected: groupId is the archetype group's size before the add, the new entity's index |
| Registry.CreateContents | src/ravine/ecs/EntityRegistry.hpp:158-188 | every storage of the archetype gains exactly its record at the end of the group |
| Registry.CreateElsewhere | src/ravine/ecs/EntityRegistry.hpp:158-188 | storages outside the archetype are unchanged |
| Registry.CreatedRemovable | src/ravine/ecs/EntityRegistry.hpp:178-186 | with the corrected groupId the entity is removable, and its proxy sits at groupId in the proxy storage |
| Registry.CreatedTracked | src/ravine/ecs/EntityRegistry.hpp:178-186 | with the corrected groupId the registry entry leads to the new entity's own proxy record |
| Registry.RemoveFrom | src/ravine/ecs/EntityRegistry.hpp:229-235 | storages outside the listed types are unchanged |
| Registry.RemoveEntity | src/ravine/ecs/EntityRegistry.hpp:222-241 | the entry is invalidated, the entity cannot be removed again, and only storages change |
| Registry.RemoveEntityContents | src/ravine/ecs/EntityRegistry.hpp:222-241 | each storage of the archetype loses exactly the record at groupId, and the others are unchanged |
| Registry.RemovalStrandsLastEntity | src/ravine/ecs/EntityRegistry.hpp:222-241 | as written, removing one of two tracked entities of an archetype leaves the other's entry unchanged, so when it held the last position it can no longer be removed |
| Registry.RemoveEntityCorrected | src/ravine/ecs/EntityRegistry.hpp:222-241 | corrected: storages change as in removeEntity, the entry is invalidated, and the entities behind it in its group move one position down |
| Registry.TrackedApart | src/ravine/ecs/EntityRegistry.hpp:222-241 | two tracked entities of one archetype hold different positions |
| Registry.RemovalKeepsOthersTracked | src/ravine/ecs/EntityRegistry.hpp:222-241 | after the corrected removal every other tracked entity stays tracked: removable, with its entry leading to its own proxy record |
| Registry.CreateThenRemove | src/ravine/ecs/EntityRegistry.hpp:158-241 | creating an entity (corrected) then removing it gives every storage its original contents back |
| Deferred.AppendPending | src/ravine/ecs/EntityRegistry.hpp:255-269 | the position joins the list of its mask, other masks keep theirs, and the keys stay sorted |
| Deferred.LateRemoveEntity | src/ravine/ecs/EntityRegistry.hpp:243-275 | as written: the entity's position is queued under its mask and its types are marked, and nothing else changes |
| Deferred.LateRemovedStillRemovable | src/ravine/ecs/EntityRegistry.hpp:243-275 | as written the registry entry is not invalidated, so the entity can still be removed afterwards |
| Deferred.LateRemoveEntityCorrected | src/ravine/ecs/EntityRegistry.hpp:243-275 | corrected: the same queueing, and the entry is invalidated so the entity is no longer removable |
| Deferred.SortUnique | src/ravine/ecs/EntityRegistry.hpp:280-285 | sort then unique gives a strictly increasing list with the same members |
| Deferred.Normalised | src/ravine/ecs/EntityRegistry.hpp:279-285 | every queued list becomes strictly increasing with the same members, keys unchanged |
| Deferred.NormalisedPosOf | src/ravine/ecs/EntityRegistry.hpp:279-285 | the normalised list of a mask is the sorted duplicate-free list of its queued positions |
| Deferred.FlushAsWritten | src/ravine/ecs/EntityRegistry.hpp:277-298 | the as-written dispatch, where the whole queue goes to every marked storage and each runs the corrected batch removal: unmarked storages are unchanged, and the queue and marks are cleared |
| Deferred.FlushAsWrittenContents | src/ravine/ecs/EntityRegistry.hpp:277-298 | where the as-written flush may run, each marked storage loses exactly its queued positions |
| Deferred.FlushTrips | src/ravine/ecs/EntityRegistry.hpp:288-291 | if a marked storage lacks any queued mask, the as-written flush fails its lookup |
| Deferred.TwoArchetypesTrip | src/ravine/ecs/EntityRegistry.hpp:288-291 | late-removing two entities where a storage of the first one's archetype keeps no group for the second one's mask is enough to make the as-written flush fail |
| Deferred.RestrictFacts | src/ravine/ecs/EntityRegistry.hpp:288-291 | the queue restricted to a storage's masks keeps those masks' positions, in order, and drops the rest |
| Deferred.Flush | src/ravine/ecs/EntityRegistry.hpp:277-298 | corrected flush: each marked storage gets only its own masks; unmarked storages are unchanged; the queue and marks are cleared |
| Deferred.FlushContents | src/ravine/ecs/EntityRegistry.hpp:277-298 | each marked storage loses exactly the queued positions of its masks |
| Deferred.FlushTwice | src/ravine/ecs/EntityRegistry.hpp:293-295 | flushing again changes nothing |
| Deferred.FlushAgrees | src/ravine/ecs/EntityRegistry.hpp:277-298 | wherever the as-written flush can run, the corrected flush gives the same world |
| Deferred.LateThenFlush | src/ravine/ecs/EntityRegistry.hpp:222-298 | late removal followed by a flush has the same effect on entities and storage contents as an immediate removal |
| Dispatch.FetchPackFacts | src/ravine/ecs/BaseSystem.hpp:23-44 | one pointer per type, each that type's chunk pointer; the size is at most every chunk's size, INT32_MAX for no types |
| Dispatch.FetchPackAttained | src/ravine/ecs/BaseSystem.hpp:33-44 | the size is the size of one of the chunks, the minimum |
| Dispatch.FetchPositive | src/ravine/ecs/BaseSystem.hpp:33-44 | inside a group every chunk and the packed size are positive, so the loop advances |
| Dispatch.UpdateUnfold | src/ravine/ecs/BaseSystem.hpp:54-69 | the loops make exactly the calls the reference definition lists |
| Dispatch.UnfoldGroup | src/ravine/ecs/BaseSystem.hpp:60-67 | the loop over one group makes exactly the calls the reference definition lists |
| Dispatch.GroupCallsShape | src/ravine/ecs/BaseSystem.hpp:60-67 | every call names its group, has a positive size and one pointer per type |
| Dispatch.AlignedCallsRead | src/ravine/ecs/BaseSystem.hpp:54-69 | with corrected chunks every call's span for a type lies in that type's group and reads its records in logical order |
| Dispatch.EqualTipsSameCalls | src/ravine/ecs/BaseSystem.hpp:54-69 | when all types' groups share the run split, the as-written and corrected chunking make the same calls |
| Dispatch.EqualTipsCallsRead | src/ravine/ecs/BaseSystem.hpp:54-69 | so with a shared run split the as-written dispatch reads every group correctly |
| Dispatch.MisalignedChunkOverruns | src/Core/ComponentsIterator.hpp:22-34 | groups of 3 with tips 1 and 2: the second as-written call hands a span of 2 starting at slot 2 of a 3-slot slice |
| Dispatch.AlignedChunksStayInside | src/Core/ComponentsIterator.hpp:22-34 | for the same groups, corrected chunking makes three calls of size 1, each inside the slices |

## Left out

- Memory: allocation, `free` and copies between buffers are not modelled. Buffers are sequences. A slot that was allocated but never written holds the caller's `junk` value.
- Storage.GrownCapacity: the `1.2f` float multiply is modelled as the integer rule `max * 6 / 5`, truncated.
- Adding.Reserve: a single grow may still be too small for a large batch, as in the source. Adding.AddComponent therefore requires that the grown capacity fits the batch, and does not model the overflow.
- Removal.RemoveComponents: requires a non-empty queue, because the source dereferences `begin()` of the map.
- Size bookkeeping: the storage's `size` is never lowered on removal. The model follows the source, so `size` only bounds the used part of the buffer.
- swapComponent is a TODO with no body in the source, so it has no model.
- Integer widths: 32-bit arithmetic is modelled only in `signMask`, `min` and `max`. Sizes, offsets and masks are unbounded integers. The `1u << maskCount` count is modelled as `2^n`, with no wrap-around.
- Identities: `getInstance()` addresses are modelled as abstract distinct integers. The proxy storage's identity is a field of the world.
- Entity, EntityReg, EntityProxy, InvalidEntity and GroupIdList are used but not declared in the modelled headers. Entity.hpp declares only Entity. EntityReg and EntityProxy are modelled as the records the code reads and writes, and InvalidEntity as -1.
- Registry.AddRecords: the storage adds of one entity are modelled as one simultaneous update. Its identities are distinct, so the adds are independent.
- Registry.StorageIterators: `getInstance()` creates a missing storage as a side effect. The model returns no iterators instead. A newly created storage would have an empty registry, so it gives none either.
- getMaskArray is the identity on the list of storage identities, and has no member of its own.
- The default-constructing `createEntity` overload (`EntityRegistry.hpp:190-220`) is left out. It repeats the modelled overload with default-constructed components.
- Registry.FreshId: freshness is stated for one create call from an empty vacancy queue. No code enqueues onto that queue.
- EntityGroups.RemComponentAsWritten: its contract is deliberately weaker than the code. It states sizes, the base, the split count and the log prefix, not the records' contents or labels. The mislabelling is shown by EntityGroups.RemComponentAsWrittenMislabels on a concrete group.
- The lookup log: `flushLookupBuffer` is empty in the source and nothing reads the log. The model only appends to it.
- Dispatch: the update callback is recorded as a list of calls (group, size, pointers). `deltaTime` and the system's virtual dispatch are left out.
- Removal.RemoveComponentsAsWritten: models only the as-written gap accounting, over the corrected remComponent and roll. Its contract gives the frame and the shape, not the contents. What the accounting does is shown by Removal.RemoveComponentsAsWrittenLeavesGap.
- Deferred.FlushAsWritten: models only the as-written dispatch of the whole queue. Each marked storage then runs the corrected batch removal, not the as-written one.
- The proxy storage: the registry's `EntityProxy` storage is modelled with the generic group code. The `EntityProxy` specialisation (the groupId stamps of `EntityGroup.hpp:139-160`, the relabelling on removal, the lookup log) is modelled only in EntityGroups. No modelled header includes `EntityGroup.hpp`. In the registry, a proxy record keeps the groupId it was created with.
- Deferred.Flush: the deferred removal updates the registry entries the way removeEntity does as written. The relabelling of the entities behind a removed one is modelled for removeEntity only (Registry.RemoveEntityCorrected).
- Groups.ShiftClockwise: the second `memcpy` of `shiftClockwise` (`ComponentsGroup.hpp:262`, `EntityGroup.hpp:316`) copies between overlapping ranges when tip - count > count. C leaves that undefined. The model gives every copy `memmove` semantics: Groups.Move reads the whole source range before it writes.
- Concurrency and the iterator classes' copy semantics are not modelled.

## Findings

| source | as written | input that shows it | evidently intended | confidence | as-written member | corrected member |
|---|---|---|---|---|---|---|
| src/ravine/ecs/ComponentsGroup.hpp:240-252 | rollCounterClockwise copies records to base - min(base, count), but lowers the base by min(base, count, size); an empty group is never moved | buffer [7,8,9], group base 2 size 1 tip 0, count 2: the group then reads [8] | the base drops by the distance the records were copied, and the contents are kept | not executed | Groups.RollCounterClockwiseAsWrittenLosesRecord, Groups.RollCounterClockwiseAsWrittenStrandsEmptyGroup | Groups.RollCounterClockwise |
| src/ravine/ecs/ComponentsGroup.hpp:205-210 | remComponent's final roll inherits the roll defect when more records are removed from the left run than remain | buffer [7,8,9], group base 0 size 3 tip 2, remove positions 1 and 2: base 1, contents [8] | base unchanged, contents [9] | not executed | Groups.RemComponentAsWrittenLosesRecord | Groups.RemComponent |
| src/ravine/ecs/EntityGroup.hpp:142 | the records written after the slice end are stamped size + i, a physical offset | group base 0 size 2 tip 1, adding entities 20 and 30: entity 20 is at index 1 but stamped 2 | the stamp is the logical index size - tip + i | not executed | EntityGroups.AddComponentAsWrittenMislabels | EntityGroups.EntityAddComponent, EntityGroups.ShiftThenAddLabels |
| src/ravine/ecs/EntityGroup.hpp:252-265 | the records the second loop moves up have their groupId lowered by comprShifts + leftComprCount, which is not how far their logical index moves | records (1,1),(2,2),(3,0), group base 0 size 3 tip 2, remove position 2: entity 1 is at index 1 but labelled 0 | every moved record is labelled with its new logical index | not executed | EntityGroups.RemComponentAsWrittenMislabels | EntityGroups.EntityRemComponent |
| src/ravine/ecs/FastMath.h:87-92 | the cursor search compares the value at the cursor with the limit of loop index i rather than of the cursor's own position, so from 4 seeds on some tuples are skipped | 4 seeds, size 3: [0,1,2] steps to [0,2,3], and [0,1,3] is never summed | the cursor moves left while its value has reached n - k + cursor, the limit of its own position | not executed | FastMath.CursorAsWrittenSkipsTuple | FastMath.Cursor, FastMath.GetMaskCombinations |
| src/ravine/ecs/ComponentStorage.hpp:286-290 | later groups are rolled down by the sum of remComponent's return values, the number of right-run removals, not the number removed | two groups, one removal in the first group's left run: the second group is not moved and a gap is left | roll by the number of records removed so far | not executed | Removal.RemoveComponentsAsWrittenLeavesGap | Removal.RemoveComponents, Removal.RemoveComponentsClosesGap |
| src/ravine/ecs/EntityRegistry.hpp:288-291 | the whole pending map goes to every marked storage, whose removeComponents asserts every mask is among its groups (ComponentStorage.hpp:282) | late-removing an entity of {EntityProxy, A} and one of {EntityProxy, B}, where A's storage keeps no group for {EntityProxy, B} | each storage receives only its own masks | not executed | Deferred.FlushTrips, Deferred.TwoArchetypesTrip | Deferred.Flush, Deferred.FlushAgrees |
| src/ravine/ecs/EntityRegistry.hpp:180 | the new registry entry gets groupId -1, and nothing in EntityRegistry.hpp updates it | any createEntity: removeEntity then passes -1 as the group position | groupId is the entity's index in its group, the group's size before the add | not executed | Registry.CreateEntity | Registry.CreateEntityCorrected, Registry.CreatedRemovable |
| src/ravine/ecs/EntityRegistry.hpp:222-241 | removeEntity deletes the record at groupId from each group (the later records move down, ComponentsGroup.hpp:132-211), but no other registry entry's groupId changes | entities a and b at positions 0 and 1 of a two-record group: after removing a, b's groupId 1 is past the end of the group | the entries of the entities behind the removed one are lowered by one | not executed | Registry.RemovalStrandsLastEntity | Registry.RemoveEntityCorrected, Registry.RemovalKeepsOthersTracked |
| src/ravine/ecs/EntityRegistry.hpp:246 | lateRemoveEntity invalidates a copy of the registry entry (lines 272-273), so the entry itself is left valid | any removable entity: after lateRemoveEntity it is still removable | the registry entry itself is invalidated | not executed | Deferred.LateRemovedStillRemovable | Deferred.LateRemoveEntityCorrected |
| src/Core/ComponentsIterator.hpp:22-34 | getChunk reports the whole run's length, not what remains of it from id; FetchPack (BaseSystem.hpp:33-44) takes the minimum over types | two types with groups of 3 and tips 1 and 2: the second call spans slots 2 and 3 of a 3-slot slice | the chunk spans the rest of id's run | not executed | Dispatch.MisalignedChunkOverruns | Iterators.GetChunkAligned, Dispatch.AlignedCallsRead, Dispatch.AlignedChunksStayInside |
