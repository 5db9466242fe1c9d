# toecs in Dafny

A model of the core of **toecs**, a small sparse-set entity-component
system written in Rust. The model covers:

- **The packed column** (`sparse.dfy`, module `Sparse`). Generations start
  at 1 and are only ever incremented. The sparse array grows in chunks of
  64 slots. `SparseSet` keeps the sparse `to_dense` array beside the dense
  `to_sparse` and `data` vectors. Each operation is specified through the
  ghost map `Contents()`, from slot to (generation, value). `Packed()` is
  the two-way agreement between the sparse and the dense side, which
  `insert` and a matching `swap_remove` preserve.
- **The generational entity allocator** (`ent.dfy`, module `Ent`). The
  `EntityPool` keeps its slot entries (`ToDense` / `Empty`) threaded by a
  free list, the dense list of live entities, and the reservation counter.
  The free list's chain order is kept as a ghost sequence `freeList`.
  `Linked` states that the dense list and the slots agree.
- **The borrow flag** of every registry cell (`cell.dfy`). A cell allows
  shared borrows by many readers, or one exclusive writer.
- **The component registry** (`comp.dfy`): `ComponentPoolMap` and the
  entity-keyed `ComponentPool`. It covers the current `src/world/comp.rs`
  (errors as `BorrowError`) and the older `src/comp.rs` (`None` or a panic).
- **The resource registry** (`res.dfy`): `ResourceMap`, for both
  `src/world/res.rs` and `src/res.rs`.
- **The access-set conflict detector** (`access.dfy`). `src/sys.rs`,
  `src/world/fetch.rs` and `src/world/borrow.rs` each carry their own copy;
  one module models them all.
- **Single-view queries** (`query.dfy`): the binding and the two
  iterators.
- **The deferred command queue** (`cmd.dfy`), over an abstract world
  (`world.dfy`). The world is an `EntityPool` next to one column per
  registered component type. `Step` says what each command does to a
  world snapshot, and `Replay` runs a queue of them. `CommandQueue.Apply`
  is proved to synchronise the pool and then replay its commands in push
  order.

Panics are values: `Outcome<T>` is either `Return(v)` or `Panic`. Type ids
are `nat`, and every registry stores values of one type parameter.

Five places in the allocator and the sparse set do something other than
their evident intent (see "## Findings"). The model keeps each one twice:

- a member that follows the code as written, plus a verified example
  that exhibits the discrepancy;
- a corrected member stating the intended behaviour.

Of the corrected members, only `Ent.EntityPool.DeallocSwap` is used
elsewhere: the world's `Despawn`, and through it the queue's `Apply`, run
it. `Ent.EntityPool.FindNthFreeChained`,
`Ent.EntityPool.ReserveAtomicChained` and `Sparse.SparseSet.SwapRemoveChecked`
are stand-alone intended definitions, with their properties proved beside
them. `World.Without`, which the world's columns use, is its own
generation-checked removal over a column's contents. The component
pool's `SwapRemove` and `ErasedRemove` delegate to the sparse set's
`swap_remove` as written, because the pool's operations are exactly the
set's.

`dealloc` takes the entity out of `dense` with `Vec::remove`
(src/world/ent.rs:183). The corrected `dealloc` swap-removes it instead
and repoints the moved entity's slot. The intent is read off the source
itself:

- `contains` (src/world/ent.rs:114-121) looks up `dense` at the position
  a slot's `ToDense` entry records. It is only right while every such
  entry points at its own entity.
- `SparseSet::swap_remove` (src/sparse.rs:344-356) removes a dense element
  with exactly this swap-and-repoint pattern.

`Ent.EntityPool.Dealloc` follows the code as written, and
`Ent.EntityPool.DeallocSwap` is the corrected version.

## Model

| member | source | states |
|---|---|---|
| Sparse.Increment | src/sparse.rs:58-67 | a generation's successor is strictly larger, so starting from `INITIAL` = 1 it is never zero |
| Sparse.RecycledAdds | src/sparse.rs:63-67 | recycling a slot n times from generation g gives exactly g + n |
| Sparse.SwapRemoved | src/sparse.rs:344-345 | `Vec::swap_remove(i)` shortens by one, puts the last element at i and keeps every other position |
| Sparse.SparseArray.constructor | src/sparse.rs:377-383 | a fresh sparse array has no slots |
| Sparse.SparseArray.Set | src/sparse.rs:397-401 | `set` overwrites exactly the given slot with `Some(dense)` |
| Sparse.SparseArray.Remove | src/sparse.rs:409-412 | `remove` returns what `get` saw (none beyond the end) and clears that slot, changing nothing when out of range; it does not compare generations |
| Sparse.SparseArray.MaybeGrow | src/sparse.rs:414-425 | grows iff the target slot is beyond the end; afterwards the slot exists, the length is a multiple of 64 and at most target + 64, old slots are kept and new ones are `None` |
| Sparse.SparseArray.GetOrAllocMut | src/sparse.rs:403-407 | the slot exists afterwards and holds what `get` returned before; growth only appends `None` slots and keeps the length a multiple of 64 |
| Sparse.AppendKeeps | src/sparse.rs:318-332 | pointing an empty slot at a new last dense position keeps the sparse/dense agreement and adds exactly that slot to the contents |
| Sparse.OverwriteKeeps | src/sparse.rs:305-317 | overwriting an occupied slot in place keeps the agreement and replaces exactly that slot's contents with the new generation and value |
| Sparse.ClearKeeps | src/sparse.rs:337-342 | clearing a slot before any generation check drops it from the contents, and breaks the two-way agreement whenever the slot was occupied |
| Sparse.SwapFillContents | src/sparse.rs:344-359 | swap-removing a slot's dense position and repointing the moved last element keeps every other slot's generation and value |
| Sparse.SwapFillBijective | src/sparse.rs:344-359 | the same repointing keeps the sparse and dense sides in two-way agreement |
| Sparse.PackedLen | src/sparse.rs:209-211 | under the two-way agreement the number of occupied slots is the dense length |
| Sparse.SparseSet.constructor | src/sparse.rs:197-205 | a default sparse set is empty and packed |
| Sparse.SparseSet.Len | src/sparse.rs:209-211 | `len` is the common length of `data` and `to_sparse` |
| Sparse.SparseSet.LenCountsSlots | src/sparse.rs:209-211 | in a packed set, `len` counts the occupied slots |
| Sparse.SparseSet.PackedReadsBack | src/sparse.rs:362-364 | in a packed set, reading each dense owner back through `get` gives the value stored at its position |
| Sparse.SparseSet.Contains | src/sparse.rs:241-247 | `contains(i)` iff i's slot is occupied with i's own generation, so an older index reads as absent |
| Sparse.SparseSet.Get | src/sparse.rs:249-256 | `get(i)` is the stored value when the slot holds i's generation and none otherwise, and succeeds exactly when `contains` does |
| Sparse.SparseSet.Parts | src/sparse.rs:362-364 | the owners and the data have equal length, and every sparse entry points inside the data |
| Sparse.SparseSet.SetThrough | src/sparse.rs:276-283 | a write through `get_mut` succeeds iff `contains`, replacing that slot's value and nothing else |
| Sparse.SparseSet.Insert | src/sparse.rs:304-334 | returns the previous occupant's value, whatever its generation; sets the slot to i's generation and value; appends to `data` and `to_sparse` iff the slot was empty; afterwards `get(i)` is the new value and a packed set stays packed |
| Sparse.SparseSet.SwapRemove | src/sparse.rs:336-360 | returns the value iff the generation matches; the length drops by one exactly then; an unoccupied slot changes nothing; with a stale generation the slot's entry is already gone, so the occupant drops out and the set is no longer packed |
| Sparse.SparseSet.SwapRemoveChecked | src/sparse.rs:336-360 | the corrected `swap_remove`: a matching generation removes exactly that slot, anything else changes nothing, and the set stays packed |
| Ent.EntityPool.constructor | src/world/ent.rs:73-82 | a default pool is empty, with no free slot and no reservation |
| Ent.EntityPool.Slice | src/world/ent.rs:110-112 | the live entities plus the free slots account for every slot |
| Ent.EntityPool.Contains | src/world/ent.rs:114-122 | false for an out-of-range or free slot; otherwise compares the generation of the dense entity the slot points at, panicking when that position is past the end of `dense` |
| Ent.EntityPool.ContainsLinked | src/world/ent.rs:114-122 | when dense and slots agree, `contains(e)` never panics and holds iff e is in `dense` |
| Ent.EntityPool.Alloc | src/world/ent.rs:128-161 | recycling takes the free-list head one generation on, advances `first_free` to its link and decrements `n_free`; otherwise a fresh slot at generation 1 is appended; the entity joins the end of `dense`, is live at once, and agreement between dense and slots is kept |
| Ent.EntityPool.Dealloc | src/world/ent.rs:163-188 | as written: panics on an empty pool; false with nothing changed iff the entity is not live; on success the slot becomes the free-list head with the entity's generation unincremented, `n_free` grows, and the entity leaves `dense` by an order-preserving remove with no slot repointed |
| Ent.EntityPool.DeallocSwap | src/world/ent.rs:163-188 | the corrected `dealloc`: true iff the entity was live; the slot is pushed on the free list at its generation, and the last entity fills the hole with its slot repointed, so agreement is kept and the dense set loses exactly that entity |
| Ent.EntityPool.ReserveAtomic | src/world/ent.rs:192-210 | as written: bumps the counter and changes nothing else; past the free slots the reservation is the fresh slot `len + k` at generation 1; among the free slots it is the slot `find_nth_free` names at its stored generation |
| Ent.EntityPool.ReserveAtomicChained | src/world/ent.rs:192-210 | the corrected `reserve_atomic`: the k-th reservation is exactly the entity the k-th later `alloc` hands out |
| Ent.EntityPool.FindNthFree | src/world/ent.rs:212-237 | as written: walks `nth` steps indexing the slot array by the step number, panicking on a live slot or a missing link |
| Ent.EntityPool.FindNthFreeChained | src/world/ent.rs:212-237 | the corrected walk: follows the chain from `first_free` to the nth free slot, which is free |
| Ent.EntityPool.Synchronize | src/world/ent.rs:240-247 | resets the counter and allocates once per reservation: `dense` grows by exactly the entities those allocs hand out, in order; nothing changes without reservations |
| Ent.Allocs | src/world/ent.rs:240-247 | a run of n allocs hands out n entities |
| Ent.AllocsAt | src/world/ent.rs:128-161 | the k-th of a run of allocs recycles the k-th free slot one generation on, or past the free list takes a fresh slot at generation 1 |
| Ent.LiveIn | src/world/ent.rs:114-121 | `contains` on the two vectors: true only on a `ToDense` slot, and in a linked pool exactly when the slot is live at the entity's generation |
| Ent.NthFreeAsWritten | src/world/ent.rs:212-234 | as written: panics iff the pool has no free slot or one of the first `nth` slots is live or ends the chain; otherwise the head for `nth` = 0, and the link stored in slot `nth` - 1 after that |
| Ent.LiveIsIssued | src/world/ent.rs:114-122 | when dense and slots agree, an entity is in `dense` iff its slot points at it with its generation |
| Ent.RecycleKeeps | src/world/ent.rs:129-146 | recycling the head of the free chain hands out that slot one generation on, leaves the rest of the chain intact and makes the new entity live |
| Ent.GrowKeepsChain | src/world/ent.rs:147-160 | with no free slot, appending a fresh slot at generation 1 keeps the empty chain and makes the new entity live |
| Ent.FreeChainPush | src/world/ent.rs:178-186 | marking a live slot free with the old head as its link makes it the new head of the chain |
| Ent.FreeChainPop | src/world/ent.rs:129-146 | the head of a non-empty chain is a free slot, and taking it leaves the chain from its link |
| Ent.SwapUnlinked | src/world/ent.rs:178-186 | swap-removing a live entity and repointing the moved one keeps dense and slots in agreement |
| Comp.ComponentPool.constructor | src/world/comp.rs:193-199 | a default pool is empty |
| Comp.ComponentPool.Contains | src/world/comp.rs:202-204 | the sparse set's generation-checked membership at the entity's index |
| Comp.ComponentPool.Get | src/world/comp.rs:206-208 | the sparse set's `get` at the entity's index |
| Comp.ComponentPool.Get2Mut | src/world/comp.rs:214-219 | both components when both entities are present, otherwise none |
| Comp.ComponentPool.AsSlice | src/world/comp.rs:221-223 | the component slice lines up with the owners |
| Comp.ComponentPool.Entities | src/world/comp.rs:229-231 | the owners are the dense `to_sparse` indices as entities |
| Comp.ComponentPool.Parts | src/world/comp.rs:256-259 | the sparse array, owners and components of the same pool, equal in length and with every entry inside the data |
| Comp.ComponentPool.OwnersReadBack | src/world/comp.rs:229-231 | in a packed pool every owner reads back its own component through `get` |
| Comp.ComponentPool.Insert | src/world/comp.rs:248-250 | returns the slot's previous component and stores the new one at the entity's generation, keeping a packed pool packed |
| Comp.ComponentPool.SwapRemove | src/world/comp.rs:252-254 | the set's `swap_remove`: returns the component iff the entity is present. A packed pool loses exactly that slot and stays packed. A stale entity clears the slot's occupant too, leaving the pool unpacked |
| Comp.ComponentPool.SetThrough | src/world/comp.rs:210-212 | writing through `get_mut` succeeds iff present and replaces only that component |
| Comp.ComponentPool.ErasedRemove | src/world/comp.rs:181-185 | `swap_remove` with the result dropped: in a packed pool the entity's component goes and the pool stays packed; on an entity without a component the slot is cleared anyway, evicting a newer occupant and unpacking the pool |
| Comp.ComponentPool.Index | src/world/comp.rs:267-273 | panics iff the entity is absent, otherwise yields its component |
| Comp.ComponentPool.IndexMut | src/world/comp.rs:275-280 | panics iff the entity is absent with nothing changed, otherwise replaces its component |
| Comp.ComponentPoolMap.constructor | src/world/comp.rs:38-41 | a default map registers nothing |
| Comp.ComponentPoolMap.IsRegistered | src/world/comp.rs:59-69 | an observer on the type-id keys; `Register` and `GetMut` state its value |
| Comp.ComponentPoolMap.Register | src/world/comp.rs:72-86 | reports whether the type was already registered; if so nothing changes, otherwise a fresh empty, unborrowed pool is added |
| Comp.ComponentPoolMap.TryBorrow | src/world/comp.rs:88-104 | `NotRegistered` for an absent type; `AlreadyBorrowed` iff an exclusive borrow is held; otherwise one more reader and a shared handle |
| Comp.ComponentPoolMap.TryBorrowMut | src/world/comp.rs:106-123 | `NotRegistered` for an absent type; `AlreadyBorrowed` iff any borrow is held; otherwise the writer flag and an exclusive handle |
| Comp.ComponentPoolMap.Borrow | src/comp.rs:75-84 | the older `borrow`: none for an absent type, a panic while an exclusive borrow is held, otherwise a shared handle |
| Comp.ComponentPoolMap.BorrowMut | src/comp.rs:86-94 | the older `borrow_mut`: none for an absent type, a panic while any borrow is held, otherwise an exclusive handle |
| Comp.ComponentPoolMap.DropGuard | src/world/comp.rs:290-294 | dropping a handle releases exactly its own borrow on its own cell |
| Comp.ComponentPoolMap.GetMut | src/world/comp.rs:125-128 | some pool iff the type is registered, and it is that type's pool |
| Comp.ComponentPoolMap.IterMut | src/world/comp.rs:130-135 | yields exactly the registered pools |
| Comp.ComponentPoolMap.Display | src/world/comp.rs:137-145 | the display takes the whole map and leaves the registry empty meanwhile |
| Comp.ComponentPoolMap.DisplayAndDrop | src/world/comp.rs:137-157 | displaying and then dropping the display leaves the map unchanged |
| Comp.ComponentPoolMapDisplay.constructor | src/world/comp.rs:148-151 | the display holds the taken map and a reference to its origin |
| Comp.ComponentPoolMapDisplay.Drop | src/world/comp.rs:153-157 | dropping swaps the held map back into the origin |
| Cell.AcquireShared | src/world/res.rs:63-70 | a shared borrow adds one reader, afterwards forbids an exclusive one, and is undone by its release |
| Cell.AcquireExclusive | src/world/res.rs:72-80 | an exclusive borrow needs an idle cell, forbids both kinds afterwards, and is undone by its release |
| Cell.ReleaseShared | src/world/res.rs:119-124 | dropping a shared guard removes one reader |
| Cell.ReleaseExclusive | src/world/res.rs:140-145 | dropping the exclusive guard clears the writer flag and leaves the cell exclusively borrowable again |
| Cell.Release | src/world/res.rs:121-159 | dropping a guard releases the borrow of its own kind and keeps the flag coherent |
| Res.ResourceMap.constructor | src/world/res.rs:23-26 | a default map holds no resource |
| Res.ResourceMap.Contains | src/world/res.rs:56-58 | an observer on the stored types (also src/res.rs:47-49); `Insert` makes it true, `Remove` false, and `Borrow` returns none exactly when it is false |
| Res.ResourceMap.Insert | src/world/res.rs:37-44 | returns the previous value of the type, if any, and stores the new one unborrowed |
| Res.ResourceMap.Remove | src/world/res.rs:46-54 | returns the stored value iff present and deletes it, so `contains` is false afterwards |
| Res.ResourceMap.Borrow | src/world/res.rs:63-70 | none for an absent type, a panic while an exclusive borrow is held, otherwise a shared handle and one more reader |
| Res.ResourceMap.BorrowMut | src/world/res.rs:72-80 | none for an absent type, a panic while any borrow is held, otherwise an exclusive handle |
| Res.ResourceMap.Read | src/world/res.rs:125-131 | a guard held on a stored type derefs to exactly the value stored for it |
| Res.ResourceMap.WriteThrough | src/world/res.rs:154-159 | writing through an exclusive guard replaces exactly that resource's value |
| Res.ResourceMap.DropGuard | src/world/res.rs:121-159 | dropping a guard releases exactly its borrow |
| Res.ResourceMap.Display | src/world/res.rs:83-91 | the display takes the whole map and leaves it empty meanwhile |
| Res.ResourceMap.DisplayAndDrop | src/world/res.rs:83-103 | once the display is dropped the map is unchanged |
| Res.ResourceMapDisplay.constructor | src/world/res.rs:93-97 | the display holds the taken map and its origin |
| Res.ResourceMapDisplay.Drop | src/world/res.rs:99-103 | dropping swaps the held map back |
| Res.TwoExclusiveBorrows | src/tests.rs:3-22 | two types can be mutably borrowed at once; the values written through are read back, and re-inserting and removing return the previous values |
| Res.SharedAfterExclusive | src/tests.rs:24-31 | a shared borrow while an exclusive one is held panics |
| Res.SharedBorrowsCoexist | src/tests.rs:33-39 | two shared borrows of one type coexist |
| Access.Conflicts | src/world/fetch.rs:23-33 | two accesses conflict iff they name the same type in the same family and at least one is exclusive |
| Access.ConflictsSymmetric | src/sys.rs:53-63 | the access conflict is symmetric |
| Access.AnyConflictsWith | src/world/fetch.rs:56-60 | some access of the other set conflicts with the given one |
| Access.SetConflicts | src/world/fetch.rs:56-60 | `conflicts` on sets iff some cross pair conflicts |
| Access.SetConflictsSymmetric | src/sys.rs:166-172 | set conflict is symmetric |
| Access.SelfConflict | src/world/fetch.rs:62-74 | the nested loops find a conflict iff two distinct positions conflict; never for empty or singleton sets |
| Access.Merge | src/world/fetch.rs:82-91 | always the concatenation, `Ok` iff it does not conflict with itself |
| Access.PairwiseConflictAppend | src/world/fetch.rs:82-91 | a concatenation conflicts with itself iff one half does or the halves conflict with each other |
| Access.Flatten | src/world/fetch.rs:101-103 | folding `merge_impl` over the sets (as src/sys.rs:236-244 does) keeps every access: the result is as long as the sets together |
| Access.FlattenMembers | src/world/fetch.rs:93-99 | an access is in the concatenation of sets iff it is in one of them |
| Access.Concat | src/world/fetch.rs:93-99 | the left fold of `merge` from `EMPTY` panics iff some merged prefix, equivalently the whole concatenation, conflicts with itself; otherwise it returns the concatenation |
| Access.ConcatOutcome | src/world/borrow.rs:89-95 | a returned concatenation does not conflict with itself |
| Access.SystemAccesses | src/sys.rs:236-244 | a system's accesses are its parameters' sets concatenated in order, with no conflict check |
| Access.Singles | src/sys.rs:82-141 | each parameter declares exactly one access |
| Access.SinglesFlatten | src/sys.rs:236-244 | concatenating the single-access sets gives the accesses in parameter order |
| Access.AccessesOf | src/world/fetch.rs:242-246 | a tuple's accesses are its members' sets concatenated through `concat`, which never yields a self-conflicting set |
| Access.SingleTuple | src/world/borrow.rs:223-227 | a tuple of single borrows declares its members' accesses in order, and panics iff two conflict |
| Access.EntityPoolAddsNothing | src/world/fetch.rs:162-164 | fetching `&EntityPool` contributes the empty set |
| Access.ConflictionExamples | src/world/tests.rs:254-281 | the conflict test's eight cases: two `self_conflict` and six `conflicts` assertions |
| Access.CustomBorrowAccesses | toecs_derive/tests/it/main.rs:22-27 | the derived struct's accesses equal those of the equivalent tuple |
| Query.IntoParts | src/query.rs:92-115 | a view's owners and binding come from the same pool, so owners and components line up and every entry points inside the components |
| Query.BindingGet | src/query.rs:47-58 | a panic iff the slot points past the components; none iff the slot is out of range or empty |
| Query.BindingIgnoresGeneration | src/query.rs:66-80 | on a view, `get` never panics and returns the slot's occupant whatever its generation, agreeing with the pool's `get` on present entities |
| Query.StaleEntityReadsOccupant | src/query.rs:50-58 | a stale entity whose slot was reused reads the new occupant although the pool reports it absent |
| Query.SingleIter.constructor | src/query.rs:119-122 | an iterator over given owners and binding from a given index |
| Query.SingleIter.Next | src/query.rs:152-161 | yields the component at `index` and steps on; once exhausted yields none and stays put |
| Query.SingleIter.Entities | src/query.rs:125-131 | the same walk at the same position, now yielding owners too |
| Query.SingleIter.Collect | src/query.rs:146-161 | draining yields exactly the components from the index on, in dense order |
| Query.SingleIterWithEntities.constructor | src/query.rs:136-139 | an iterator over given owners and binding from a given index |
| Query.SingleIterWithEntities.Next | src/query.rs:169-185 | yields the owner and the component at `index` and steps on; once exhausted yields none and stays put |
| Query.SingleIterWithEntities.Collect | src/query.rs:163-185 | draining yields exactly the owner/component pairs from the index on, in dense order |
| Query.Iter | src/query.rs:187-196 | a fresh iterator starts at 0 over the pool's parts |
| Query.IterAll | src/query.rs:187-196 | iterating a pool yields exactly its components in dense order |
| Query.IterAllWithEntities | src/query.rs:124-131 | iterating with `.entities()` pairs each component with its owner, in dense order |
| World.InsertAll | src/world.rs:86-96 | inserting a set panics iff one of its types is unregistered, and registers nothing new |
| World.InsertAllEffect | src/world.rs:60-62 | afterwards each column holds the entity's last value of that type from the set, and every other slot is unchanged |
| World.Without | src/sparse.rs:336-342 | a column loses the entity's slot only when it holds the entity's generation |
| World.RemoveAll | src/world.rs:86-96 | removing a set panics iff one of its types is unregistered |
| World.RemoveAllEffect | src/world.rs:64-66 | afterwards the columns the set names no longer hold the entity, and the other columns are untouched |
| World.Forget | src/world/comp.rs:181-185 | despawning drops the entity from every column and keeps the registered types |
| World.SpawnStep | src/world/ent.rs:128-161 | a spawn appends a not-yet-issued entity to `dense`, live at once, with the columns unchanged |
| World.DespawnStep | src/world/ent.rs:163-188 | with the corrected `dealloc`: a non-live entity changes nothing and reports false; a live one is reported true, leaves `dense`, heads the free list and is forgotten by every column; a linked world never panics |
| World.World.constructor | src/world/ent.rs:73-82 | a fresh world has no entities and no columns |
| World.World.Register | src/world/comp.rs:72-86 | reports whether the type already had a column, adding an empty one otherwise |
| World.World.Synchronize | src/world/ent.rs:240-247 | the world's pool synchronises; without reservations the snapshot is unchanged |
| World.World.SpawnEmpty | src/world/ent.rs:128-161 | the next alloc's entity, with the snapshot advanced by `SpawnStep` |
| World.World.InsertSet | src/world.rs:86-96 | a panic iff a type of the set is unregistered, otherwise the columns become `InsertAll` |
| World.World.RemoveSet | src/world.rs:86-96 | a panic iff a type of the set is unregistered, otherwise the columns become `RemoveAll` |
| World.World.Contains | src/world/ent.rs:114-121 | in a valid world `contains` never panics and holds exactly for the live entities |
| World.World.Despawn | src/world/ent.rs:163-188 | with the corrected `dealloc`: the snapshot advances exactly as `DespawnStep` says and the result is what it reports |
| World.SpawnFresh | src/world/ent.rs:147-160 | with no free slot a spawn appends a fresh slot at generation 1 and the entity at the end of `dense` |
| World.ThreeSpawnsStep | tests/it/main.rs:16-18 | three spawns fill slots 0, 1 and 2 in order |
| World.DespawnSecondStep | tests/it/main.rs:22-23 | with the corrected `dealloc`: despawning the second succeeds once, the third moving into its place and its slot repointed; despawning it again reports false |
| World.RespawnStep | tests/it/main.rs:25-26 | the next spawn recycles slot 1 at generation 2 and joins the end |
| World.SpawnDespawnOrder | tests/it/main.rs:16-26 | the integration test's entity order `[e1, e3, e2']` |
| Cmd.Commands | src/cmd.rs:32-35 | the queued commands in meta order |
| Cmd.Step | src/cmd.rs:165-225 | `Spawn` panics iff a type is unregistered and otherwise makes a new live entity; `Despawn` of a non-live entity changes nothing, and with the corrected `dealloc`, in a linked world, of a live one never panics, kills it and drops its components; `Insert` on a non-live entity panics; `Remove` on a non-live entity changes nothing; neither touches the pool |
| Cmd.Replay | src/cmd.rs:132-139 | replaying a queue never registers or drops a component type |
| Cmd.ReplayAppend | src/cmd.rs:132-139 | replaying two queues back to back is replaying the first and then the second from where it ended, stopping at a panic |
| Cmd.Write | src/cmd.rs:72-75 | running a command on a linked world panics iff `Step` does, and otherwise advances the snapshot to `Step`'s, despawn using the corrected `dealloc` |
| Cmd.CommandQueue.constructor | src/cmd.rs:44-48 | a default queue is empty |
| Cmd.CommandQueue.Push | src/cmd.rs:65-104 | appends one meta whose offset is the old byte length, and grows the buffer by the command's size |
| Cmd.CommandQueue.Apply | src/cmd.rs:109-141 | synchronises the pool first, then replays every queued command once in push order (despawn using the corrected `dealloc`), panicking iff the replay does, and leaves metas and bytes empty |
| Cmd.TwoSpawnsReplay | src/cmd.rs:165-170 | two spawns replay into slots 0 and 1 at generation 1 with their own components |
| Cmd.SpawnsReplayInOrder | src/cmd.rs:109-141 | two queued spawns apply in push order, each with its component |
| Cmd.SpawnThenDespawn | src/cmd.rs:165-185 | spawning into a registered world and despawning that entity frees slot 0 with its link empty and leaves the column empty |
| Cmd.StaleSteps | src/cmd.rs:178-225 | on a freed slot, `Despawn` and `Remove` of the old entity leave the world unchanged and `Insert` panics |
| Cmd.StaleEntityPolicies | src/cmd.rs:178-225 | after a despawn, despawning again and removing do nothing, while inserting panics |
| Findings.DeallocShiftsAsWritten | src/world/ent.rs:183 | after the order-preserving remove, asking whether the last entity lives indexes past `dense` |
| Findings.DeallocShiftsSwapped | src/world/ent.rs:183 | with the swap-remove, the last entity stays live |
| Findings.EmptyDeallocAsWritten | src/world/ent.rs:165 | `dealloc` on an empty pool panics on `sparse.len() - 1` |
| Findings.EmptyDeallocSwapped | src/world/ent.rs:163-176 | the corrected `dealloc` on an empty pool reports false |
| Findings.SecondFreeAsWritten | src/world/ent.rs:226-234 | `find_nth_free(1)` on the chain 1 -> 2 reads the live slot 0 and panics |
| Findings.SecondFreeChained | src/world/ent.rs:212-237 | along the chain, the second free slot is 2 |
| Findings.ReserveGenerationAsWritten | src/world/ent.rs:203-208 | the reservation names slot 0 at generation 1 while `synchronize` makes generation 2 live |
| Findings.ReserveGenerationChained | src/world/ent.rs:192-210 | the corrected reservation is the entity `synchronize` makes live |
| Findings.ReservedIsSynchronized | src/world/ent.rs:192-247 | in any pool without pending reservations, the corrected reservation is what the next `synchronize` appends |
| Findings.StaleSwapRemoveAsWritten | src/sparse.rs:337-342 | a stale `swap_remove` reports nothing removed, yet the live occupant is gone |
| Findings.StaleSwapRemoveChecked | src/sparse.rs:336-360 | the generation-checked `swap_remove` keeps the live occupant |

## Left out

- The `World` struct: its definition is not part of this model. The world
  here is an entity pool plus one column per type, each column being a
  sparse set's slot -> (generation, value) contents. `insert_set` and
  `remove_set` panic on an unregistered type. The world's own `insert` and
  `remove` of one component, and the `ResourceSet` plumbing, are not
  modelled.
- Commands that are closures, and the erased write functions: the command
  bytes are reduced to their length, and each meta carries its command.
  The unsafe copies, unaligned reads and dangling-pointer handling of the
  byte buffer are not modelled.
- The `Despawn` warning log has no observable effect in the model.
- Concurrency: `AtomicRefCell` flags and the atomic reservation counter
  are sequential fields, with no threads or memory orderings.
- Type ids, `downcast_rs` and hashing: types are `nat` keys, and every map
  and pool stores one value type `V`.
- Debug/Display output, serde, the derive macros, and `System::run` /
  `borrow` / `fetch`: only the systems' `accesses()` are modelled.
- `get_by_slot_unchecked`, `to_entities` and the raw pointers of
  `get2_mut`: indexing is bounds-checked, and `Get2Mut` returns the two
  values.
- `&mut` access through iterators and views: writes through a yielded
  reference are not modelled. The mutable and shared bindings read alike.
- `Vec` capacity and allocation failure.
- Sparse.SparseArray.Get: a plain lookup, used in the contracts of
  `Remove` and `GetOrAllocMut`, with no contract of its own.
- Ent.EntityPool.Slice: states only the count of live entities against
  slots. The slice is the `dense` field itself.
- World.Without, World.Forget, World.RemoveAll, World.World.RemoveSet:
  a column drops an entity's component by a generation-checked removal.
  As written, `swap_remove` and `erased_remove` on a stale generation
  would also clear a reused slot (see `Comp.ComponentPool.SwapRemove`).
  Despawn removes only live entities, and the `Remove` command only
  reaches `remove_set` for a live entity, so neither path meets the stale
  case. A direct `remove_set` with a stale entity does meet it, and there
  the model does not evict the occupant. The world's own `remove` code is
  not part of this model, so its behaviour there stays unconfirmed.
- Sparse.SparseSet.SwapRemove: for a matching generation on a set that is
  not packed, the contents afterwards are not stated. A set becomes
  unpacked only through a stale `swap_remove`, and no operation in the
  model repacks it.
- Sparse.Increment: a generation is an unbounded `nat` here, not a
  `NonZeroU32`. At `u32::MAX` the source's `increment` overflows: a panic
  in debug builds, and a zero generation through `new_unchecked` in
  release. "Never zero" holds only below that ceiling.
- Sparse.RecycledAdds: "exactly g + n" holds only while g + n stays within
  `u32`. The 32-bit ceiling of a generation is not modelled.
- Slot and dense indices are `nat`. The truncating `as u32` of `from_usize`
  (src/sparse.rs:23-25) and the wrapping `fetch_add` of the `AtomicU32`
  reservation counter (src/world/ent.rs:81, 193) are not modelled, since
  both need more than 2^32 entities or reservations.
- World.DespawnStep, World.World.Despawn, World.DespawnSecondStep,
  Cmd.Step, Cmd.Write, Cmd.CommandQueue.Apply: despawn runs the corrected
  `dealloc` (`Ent.EntityPool.DeallocSwap`), and the world's `Valid`
  includes `Linked`. As written, `dealloc` removes a non-last entity with
  `Vec::remove` and leaves the later entities' slots unrepointed. A later
  `contains` or despawn of such an entity can then panic or read another
  entity: spawn three, despawn the first, despawn the third, and the
  second despawn panics. The integration test's order `[e1, e3, e2']`
  comes out the same under both versions. The as-written behaviour is
  exhibited by `Findings.DeallocShiftsAsWritten` and
  `Ent.EntityPool.Dealloc`.
- `debug_assert!` checks are not modelled, because they do not exist in
  release builds.

## Findings

| source | as written | input that shows it | evidently intended | confidence | as-written member | corrected member |
|---|---|---|---|---|---|---|
| src/world/ent.rs:183 | `dealloc` takes the entity out of `dense` with `Vec::remove`, shifting later entities down without repointing their slots | alloc three entities, dealloc the first, then `contains` on the third | the last entity fills the hole and its slot is repointed (swap-remove), so it stays live | not executed | Findings.DeallocShiftsAsWritten, Ent.EntityPool.Dealloc | Findings.DeallocShiftsSwapped, Ent.EntityPool.DeallocSwap |
| src/world/ent.rs:165 | `dealloc` starts from `sparse.len() - 1`, which underflows on an empty pool | `dealloc` of any entity on a fresh pool | report false, since nothing is live | not executed | Findings.EmptyDeallocAsWritten, Ent.EntityPool.Dealloc | Findings.EmptyDeallocSwapped, Ent.EntityPool.DeallocSwap |
| src/world/ent.rs:226-234 | `find_nth_free` reads the link of slot `i` (the step number) instead of following the chain | three entities, dealloc slot 2 then slot 1, then `find_nth_free(1)` | the nth slot along the free chain from `first_free` | not executed | Findings.SecondFreeAsWritten, Ent.EntityPool.FindNthFree | Findings.SecondFreeChained, Ent.EntityPool.FindNthFreeChained |
| src/world/ent.rs:203-208 | `reserve_atomic` names a recycled slot at its stored generation, while `alloc` (src/world/ent.rs:135) increments it | alloc, dealloc, `reserve_atomic`, `synchronize` | the reserved entity is the one `synchronize` makes live | not executed | Findings.ReserveGenerationAsWritten, Ent.EntityPool.ReserveAtomic | Findings.ReserveGenerationChained, Ent.EntityPool.ReserveAtomicChained |
| src/sparse.rs:337-342 | `swap_remove` clears the sparse entry before comparing generations | insert at slot 0 generation 2, then `swap_remove` slot 0 generation 1 | a stale index changes nothing | not executed | Findings.StaleSwapRemoveAsWritten, Sparse.SparseSet.SwapRemove | Findings.StaleSwapRemoveChecked, Sparse.SparseSet.SwapRemoveChecked |
