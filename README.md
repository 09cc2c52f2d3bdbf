# CacheIt, modelled in Dafny

CacheIt is an in-memory index over entities that the caller owns and the index only
borrows. One instance runs in one of two modes, fixed when it is built:

- **Identifier mode** keeps three structures that must agree with each other:
  - a dense `table_` addressed by entity id, where a null slot is an empty slot;
  - the list `active_ids_` of tracked ids;
  - the map `id_to_index_` from each tracked id to its position in that list.

  `add` is idempotent per id. `remove` is an O(1) swap-remove located by id. `update` rebuilds
  everything from a list of entities.
- **Grouping mode** keeps three structures built with a caller-supplied categorizer:
  - the categories in discovery order;
  - a map from category to position;
  - one bucket of handles per category.

  `update` is a two-pass rebuild. `add` appends without deduplication. `remove` swap-pops
  the first occurrence of the handle in the bucket of its category.

The model is split into four files:

- `handles.dfy`: the entity handle. It is a Dafny object, so handle equality is reference
  equality, as for `T*`. Its only field is a constant `id: nat`.
- `sequences.dfy`: sequence helpers shared by both modes:
  - the linear search `std::find` performs (`IndexOf`);
  - swap-with-last-then-pop (`SwapRemove`);
  - laying buckets end to end (`Concat`).
- `id_index.dfy` (module `IdMode`): identifier mode.
  - It states the three structures as a value `Tables` with its invariant `Consistent` and
    its abstract value `Entries` (id to entity).
  - It has one function per mutation: `AddStep`, `RemoveStep`, and `Rebuild` built from `Push`.
  - It has one function per read: `Gather` for `get_all` and `Slots` for `for_each_all`.
  - Lemmas prove the promised properties of these functions.
  - The class `IdIndex` holds the structures as mutable fields. Its methods update them in
    place and are proved to produce exactly what the functions describe.
- `group_index.dfy` (module `Grouping`): grouping mode, built the same way.
  - The value `Groups` with its invariant `Consistent`.
  - The mutations `AddToGroup`, `RemoveFromGroup` and `Regroup`.
  - The functions `Discover` (categories in first-appearance order) and `Members` (the
    entities of one category, in input order).
  - The two passes of `update` as the methods `ClassifyPass` and `FillPass`.
  - The class `GroupIndex`, generic in the category type. Its categorizer is a constant
    `Entity -> C`.

The two modes are two classes, so calling an operation in the wrong mode cannot be written.
`for_each`, `for_each_all` and `active_ids` return a copy, taken at the call, of the sequence
the visitor would see or of the list the reference points to.

Two behaviours of identifier-mode `update` worth noting:

- `update` in identifier mode grows the table step by step as ids arrive (CacheIt.hpp:99-100).
  It does not size the table once from the maximum id. The final table is the same.
- `update` with a repeated id is not guarded: the id is appended to the active list twice
  (CacheIt.hpp:103). The model keeps this. `IdIndex.Update` promises the invariant exactly
  when the input ids are distinct (`RebuildConsistentIff`).

## Model

| member | source | states |
|---|---|---|
| Sequences.IndexOf | CacheIt.hpp:158 | the result is the first position holding the handle, or the bucket length exactly when the handle is absent |
| Sequences.SwapRemove | CacheIt.hpp:159-160 | the bucket shrinks by one; only the removed position changes, and it receives the former last entry |
| Sequences.SwapRemoveMultiset | CacheIt.hpp:159-160 | swap-and-pop removes exactly one occurrence of the removed entry |
| IdMode.Push | CacheIt.hpp:98-104 | no contract of its own; one step of `update`: grow the table to the id if needed, store `e` in its slot, append the id and map it to the old list length; properties proved in RebuildIds, RebuildEntries, RebuildKeys, RebuildConsistentIff |
| IdMode.AddStep | CacheIt.hpp:137-146 | no contract of its own; `add`: nothing when the id is already mapped, otherwise `Push`; properties proved in AddStepKeeps, AddIdempotent, RemoveThenAdd |
| IdMode.RemoveStep | CacheIt.hpp:162-174 | no contract of its own; `remove` by id: nothing when the id is not mapped, otherwise swap-pop its position, re-point the former last id, erase the id and null its slot; properties proved in RemoveKeepsActive, RemoveKeepsPositions, RemoveKeepsSlots, RemoveStepKeeps, RemoveThenAdd, RemovedNotVisited |
| IdMode.Rebuild | CacheIt.hpp:97-105 | no contract of its own; `update`: `Push` each input entity in order into empty structures; properties proved in RebuildIds, RebuildEntries, RebuildKeys, RebuildConsistentIff |
| IdMode.Gather | CacheIt.hpp:216-218 | no contract of its own; `get_all`: the entity of each active id whose slot is in range and non-null, in active-list order; properties proved in GatherAll, ReadsAgree, RemovedNotVisited |
| IdMode.Slots | CacheIt.hpp:246 | no contract of its own; `for_each_all`: the non-null table slots in ascending slot order; properties proved in SlotsInOrder, SlotsCount, ReadsAgree, RemovedNotVisited |
| IdMode.Grown | CacheIt.hpp:140-141 | `resize(id + 1, nullptr)` past the end: old slots are kept and new slots are null |
| IdMode.AddStepKeeps | CacheIt.hpp:137-146 | `add` keeps the invariant; a tracked id changes nothing; a new id maps to `e` and the active count grows by one |
| IdMode.AddIdempotent | CacheIt.hpp:139 | adding the same id twice, under any handle, leaves the state of the first add |
| IdMode.RemoveKeepsActive | CacheIt.hpp:166-171 | after `remove` every active id is mapped to its own position, and the removed id is gone from the list |
| IdMode.RemoveKeepsPositions | CacheIt.hpp:168-172 | after `remove` every mapped id sits at its recorded position; the moved last id is re-pointed at the vacated slot |
| IdMode.RemoveKeepsSlots | CacheIt.hpp:173 | after `remove` the removed id's slot is null and every other slot still agrees with the map |
| IdMode.RemoveStepKeeps | CacheIt.hpp:162-174 | `remove` keeps the invariant; only the entry under `e.id` leaves the tracked map (by id, not by handle); the count drops by one exactly when the id was tracked |
| IdMode.RemoveThenAdd | CacheIt.hpp:137-174 | removing a tracked entity and adding it back restores the tracked map and the count |
| IdMode.RemovedNotVisited | CacheIt.hpp:162-174 | after `remove(e)` neither `get_all` nor `for_each_all` yields `e` |
| IdMode.RebuildIds | CacheIt.hpp:97-105 | the active list after `update` is the input's ids, in input order |
| IdMode.RebuildEntries | CacheIt.hpp:97-105 | after `update` the tracked map is `LastWins` of the input, the fold in which a later entity overrides an earlier one with the same id |
| IdMode.LastWinsLatest | CacheIt.hpp:97-105 | for any input, repeated ids included, `LastWins` maps exactly the input's ids, each to the entity at its last occurrence (last write wins) |
| IdMode.RebuildKeys | CacheIt.hpp:104 | the ids `update` maps are exactly the input's ids |
| IdMode.RebuildConsistentIff | CacheIt.hpp:97-105 | `update` establishes the invariant if and only if the input ids are distinct |
| IdMode.LastWinsDistinct | CacheIt.hpp:101 | with distinct ids, `update` tracks exactly the input ids, each mapped to its own input entity |
| IdMode.SizeIsCount | CacheIt.hpp:197-200 | under the invariant the active-list length is the number of tracked entities |
| IdMode.GatherAll | CacheIt.hpp:213-218 | `get_all` yields, position by position, the entity of each active id |
| IdMode.SlotsInOrder | CacheIt.hpp:244-247 | `for_each_all` visits in strictly ascending id order, exactly the entities held in the table |
| IdMode.SlotsCount | CacheIt.hpp:244-247 | under the invariant `for_each_all` visits `size()` entities |
| IdMode.ReadsAgree | CacheIt.hpp:213-247 | under the invariant `get_all` and `for_each_all` yield the same entities, `size()` of each, each in its own order (see GatherAll, SlotsInOrder) |
| IdMode.IdIndex.constructor | CacheIt.hpp:48-50 | a new index is empty and consistent |
| IdMode.IdIndex.Update | CacheIt.hpp:89-110 | the new state is `Rebuild(entities)`; the active list is the input's ids; last write wins; the invariant holds if and only if the ids are distinct |
| IdMode.IdIndex.Add | CacheIt.hpp:137-146 | keeps the invariant; a tracked id leaves everything unchanged; otherwise the slot holds `e`, the id is appended and mapped to the old length |
| IdMode.IdIndex.Remove | CacheIt.hpp:162-174 | keeps the invariant; the entry under `e.id` is removed; only the former last id moves, into the vacated position; no other map entry changes |
| IdMode.IdIndex.Clear | CacheIt.hpp:183-188 | all three structures are empty and nothing is tracked |
| IdMode.IdIndex.Size | CacheIt.hpp:197-200 | the result is the number of tracked entities |
| IdMode.IdIndex.GetAll | CacheIt.hpp:213-219 | one entity per active id, in active-list order, each the entity tracked under that id |
| IdMode.IdIndex.ForEachAll | CacheIt.hpp:244-247 | the tracked entities in strictly ascending id order, `size()` of them |
| IdMode.IdIndex.ActiveIds | CacheIt.hpp:251-255 | the active list holds each tracked id exactly once |
| Sequences.Concat | CacheIt.hpp:210-212 | no contract of its own; the buckets laid end to end, first bucket first, as `get_all` inserts them; properties proved in ConcatLength, ConcatMember, ConcatUpdate, RegroupPermutes |
| Grouping.Discover | CacheIt.hpp:67-73 | no contract of its own; the first pass of `update`: each input category appended when first seen; properties proved in DiscoverFacts, DiscoverOrder |
| Grouping.Members | CacheIt.hpp:79-82 | no contract of its own; the second pass of `update` for one category: the input entities of that category, in input order; properties proved in MembersFacts, BucketIsCategory |
| Grouping.Regroup | CacheIt.hpp:59-87 | no contract of its own; `update`: the discovered categories, their positions, and one bucket of members per category; properties proved in RegroupPermutes, RegroupKeeps |
| Grouping.AddToGroup | CacheIt.hpp:126-136 | no contract of its own; `add`: open the entity's category with an empty bucket when it is new, then append the entity to that bucket; properties proved in OpenCategoryKeeps, AppendKeeps, AddToGroupKeeps |
| Grouping.RemoveFromGroup | CacheIt.hpp:152-161 | no contract of its own; `remove`: nothing for an unknown category or a handle not in its bucket, otherwise swap-pop the first occurrence; properties proved in TrackedInOwnBucket, RemoveFromGroupKeeps |
| Grouping.DiscoverFacts | CacheIt.hpp:67-73 | the discovered categories are distinct and are exactly the categories of the input |
| Grouping.DiscoverOrder | CacheIt.hpp:67-73 | the discovered categories appear in the order of their first appearance in the input |
| Grouping.PositionsSnoc | CacheIt.hpp:69-72 | a newly discovered category maps to the old category count, and the others keep their positions |
| Grouping.MembersFacts | CacheIt.hpp:79-82 | a bucket holds exactly the input entities of its category, each as often as in the input; an unseen category has none |
| Grouping.RegroupPermutes | CacheIt.hpp:67-82 | the buckets built by `update`, laid end to end, are a permutation of the input |
| Grouping.RegroupKeeps | CacheIt.hpp:59-87 | `update` establishes the invariant and tracks each input entity exactly once, so `size()` is the input length |
| Grouping.OpenCategoryKeeps | CacheIt.hpp:130-135 | opening a new category with an empty bucket keeps the invariant and the tracked entities |
| Grouping.AppendKeeps | CacheIt.hpp:136 | appending to the bucket of the entity's category keeps the invariant and adds one occurrence |
| Grouping.AddToGroupKeeps | CacheIt.hpp:126-136 | `add` keeps the invariant, adds exactly one occurrence of `e` (no deduplication), and grows the size by one |
| Grouping.TrackedInOwnBucket | CacheIt.hpp:153-157 | a tracked entity is always in the bucket of its own category |
| Grouping.RemoveFromGroupKeeps | CacheIt.hpp:152-161 | `remove` keeps the invariant and the categories; a tracked `e` loses exactly one occurrence and the size drops by one; an untracked `e` changes nothing |
| Grouping.BucketIsCategory | CacheIt.hpp:229-232 | the bucket of a known category holds exactly the tracked entities of that category; an unknown category has none |
| Grouping.ClassifyPass | CacheIt.hpp:67-73 | first pass: the distinct categories in first-appearance order, each mapped to its position; every input category is mapped |
| Grouping.FillPass | CacheIt.hpp:75-82 | second pass: each bucket holds the input entities of its category, in input order |
| Grouping.GroupIndex.constructor | CacheIt.hpp:53-56 | a new index has the given categorizer, no categories and no buckets |
| Grouping.GroupIndex.Update | CacheIt.hpp:59-87 | the categories are the discovered ones; bucket j holds the members of category j; the tracked entities are exactly the input, so the size is the input length |
| Grouping.GroupIndex.Add | CacheIt.hpp:126-136 | keeps the invariant; a known category's bucket gets `e` appended; a new category is appended and mapped to the old count; other buckets are unchanged; one more occurrence of `e` |
| Grouping.GroupIndex.Remove | CacheIt.hpp:152-161 | keeps the invariant; the categories and the map are unchanged; a tracked `e` loses exactly one occurrence; otherwise nothing changes; other buckets are unchanged |
| Grouping.GroupIndex.Clear | CacheIt.hpp:178-182 | no categories, no map entries, no buckets, nothing tracked |
| Grouping.GroupIndex.Size | CacheIt.hpp:192-196 | the sum of the bucket sizes, which is the number of tracked occurrences |
| Grouping.GroupIndex.GetAll | CacheIt.hpp:205-212 | the buckets laid end to end in category order; an entity is in it if and only if it is in some bucket |
| Grouping.GroupIndex.ForEach | CacheIt.hpp:224-235 | the bucket of the category, or nothing for an unknown category; exactly the tracked entities of that category |
| Grouping.GroupIndex.ForEachAll | CacheIt.hpp:238-243 | visits the buckets in category order, the same sequence `get_all` collects |

## Left out

- Locking is not modelled. This covers the readers-writer mutexes, the shared and exclusive locks, and the "build locally, then swap under the lock" atomicity of `update`. Every operation is one atomic sequential method.
- Visitor callbacks are not modelled. `for_each` and `for_each_all` return a copy, taken at the call, of the sequence of entities the visitor would be called with. `active_ids()` likewise returns a copy of the active list taken at the call.
- Re-entrant visitor calls are not captured. `for_each_all` calls the visitor while it holds the shared lock (CacheIt.hpp:241-246). A visitor that calls `add`, `remove`, `update` or `clear` on the same index therefore blocks on a lock its own thread holds. `for_each` copies the bucket and releases the lock first (CacheIt.hpp:227-234), so the same visitor works there. The model cannot express either behaviour.
- The live reference returned by `active_ids()` is not captured (CacheIt.hpp:251-255). It refers to the member itself, so later `add`, `remove` or `update` calls, even on the same thread, change what the caller reads through it. The model's copy does not change.
- Compile-time mode selection is not modelled (`static_assert`, `enable_if`, `conditional_t`). It is replaced by two classes, so a wrong-mode call cannot be written at all.
- Capacity hints are not modelled. The `reserve` calls, including the average-bucket pre-sizing in `update`, have no observable effect.
- Integer widths are not modelled. Ids are `nat` rather than `uint64_t`, and positions and sizes are unbounded. The `id + 1` overflow at the largest `uint64_t` is not captured.
- Pointer lifetime is not modelled. A handle is always valid to read.
- `unordered_map` hashing is not modelled. The two maps are Dafny `map`s.
- The usage comment describing `diff_snapshots` is not modelled. It is illustrative text, not code.
- A categorizer whose answer for an entity changes over time is not modelled. The categorizer is a pure function of the handle. A tracked entity therefore always sits in the bucket of its category, and grouping `remove` of a tracked entity always finds it. The "not found in its bucket" path is modelled only for entities that are not tracked.
- Operations after an identifier-mode `update` with repeated ids are not modelled. `IdIndex.Add` and `IdIndex.Remove` require the invariant, which such an `update` does not establish.
