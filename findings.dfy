/**
 * Verified examples that separate the entity pool and the sparse set as
 * written from their corrected definitions. Each pair starts from the
 * same state; the first member follows the code as written, the second
 * the corrected, intended definition.
 */
module Findings {
  import opened Wrappers
  import opened Sparse
  import opened Ent

  /** The entity at slot `raw` and generation `gen`. */
  function E(raw: nat, gen: Generation): Entity
  {
    Entity(SparseIndex(raw, gen))
  }

  /** A pool with three entities allocated in order, slots 0, 1 and 2. */
  method ThreeAllocated() returns (pool: EntityPool)
    ensures fresh(pool) && pool.Valid() && Linked(pool.sparse, pool.dense) && pool.nReserved == 0
    ensures pool.dense == [E(0, INITIAL), E(1, INITIAL), E(2, INITIAL)]
    ensures pool.sparse == [ToDense(DenseIndex(0, INITIAL)), ToDense(DenseIndex(1, INITIAL)), ToDense(DenseIndex(2, INITIAL))]
    ensures pool.firstFree == None && pool.freeList == []
  {
    pool := new EntityPool();
    var _ := pool.Alloc();
    var _ := pool.Alloc();
    var _ := pool.Alloc();
  }

  /**
   * `dealloc` as written removes the first entity by `Vec::remove`, which
   * shifts the other two down without repointing their slots: asking
   * whether the last one is live then indexes past the end of `dense`.
   */
  method DeallocShiftsAsWritten() returns (gone: Outcome<bool>, last: Outcome<bool>)
    ensures gone == Return(true) && last == Panic
  {
    var pool := ThreeAllocated();
    assert Issued(pool.sparse, E(0, INITIAL));
    ghost var dense0 := pool.dense;
    gone := pool.Dealloc(E(0, INITIAL));
    assert !gone.Panic? && gone.value;
    assert pool.dense == dense0[..0] + dense0[1..] == [E(1, INITIAL), E(2, INITIAL)];
    last := pool.Contains(E(2, INITIAL));
  }

  /** With the swap-removing `dealloc`, the last entity moves into the hole and stays live. */
  method DeallocShiftsSwapped() returns (gone: bool, last: Outcome<bool>)
    ensures gone && last == Return(true)
  {
    var pool := ThreeAllocated();
    gone := pool.DeallocSwap(E(0, INITIAL));
    pool.ContainsLinked(E(2, INITIAL));
    last := pool.Contains(E(2, INITIAL));
  }

  /** `dealloc` as written on an empty pool: `sparse.len() - 1` underflows. */
  method EmptyDeallocAsWritten() returns (r: Outcome<bool>)
    ensures r == Panic
  {
    var pool := new EntityPool();
    r := pool.Dealloc(E(0, INITIAL));
  }

  /** The corrected `dealloc` on an empty pool: nothing to free. */
  method EmptyDeallocSwapped() returns (r: bool)
    ensures !r
  {
    var pool := new EntityPool();
    r := pool.DeallocSwap(E(0, INITIAL));
  }

  /**
   * A pool of three whose slots 2 and then 1 were freed: the chain is
   * 1 -> 2 while slot 0 is live.
   */
  method TwoFreed() returns (pool: EntityPool)
    ensures fresh(pool) && pool.Valid() && pool.nReserved == 0 && pool.nFree == 2
    ensures pool.freeList == [1, 2] && pool.firstFree == Some(1)
    ensures pool.sparse == [ToDense(DenseIndex(0, INITIAL)), Empty(INITIAL, Some(2)), Empty(INITIAL, None)]
  {
    pool := ThreeAllocated();
    assert Issued(pool.sparse, E(2, INITIAL));
    ghost var dense0 := pool.dense;
    var a := pool.Dealloc(E(2, INITIAL));
    assert !a.Panic? && a.value;
    assert pool.dense == dense0[..2] + dense0[3..] == [E(0, INITIAL), E(1, INITIAL)];
    assert Issued(pool.sparse, E(1, INITIAL));
    var b := pool.Dealloc(E(1, INITIAL));
    assert !b.Panic? && b.value;
  }

  /**
   * `find_nth_free(1)` as written reads the link of slot 0 instead of
   * following the chain from its head, and slot 0 is live.
   */
  method SecondFreeAsWritten() returns (r: Outcome<nat>)
    ensures r == Panic
  {
    var pool := TwoFreed();
    r := pool.FindNthFree(1);
  }

  /** `find_nth_free(1)` along the chain: slot 2. */
  method SecondFreeChained() returns (s: nat)
    ensures s == 2
  {
    var pool := TwoFreed();
    s := pool.FindNthFreeChained(1);
  }

  /** A pool whose only entity was freed: slot 0 is free at generation 1. */
  method OneFreed() returns (pool: EntityPool)
    ensures fresh(pool) && pool.Valid() && pool.nReserved == 0
    ensures pool.sparse == [Empty(INITIAL, None)] && pool.dense == [] && pool.freeList == [0]
  {
    pool := new EntityPool();
    var e := pool.Alloc();
    assert Issued(pool.sparse, e);
    var gone := pool.Dealloc(e);
    assert !gone.Panic? && gone.value;
  }

  /**
   * `reserve_atomic` as written names the freed slot at its old
   * generation, but the `alloc` that `synchronize` runs for the
   * reservation hands out the next generation: the reserved entity is
   * never the one that becomes live.
   */
  method ReserveGenerationAsWritten() returns (reserved: Outcome<Entity>, spawned: seq<Entity>)
    ensures reserved == Return(E(0, INITIAL))
    ensures spawned == [E(0, 2)]
  {
    var pool := OneFreed();
    reserved := pool.ReserveAtomic();
    ghost var sp, fl := pool.sparse, pool.freeList;
    pool.Synchronize();
    AllocsAt(sp, fl, 1, 0);
    spawned := pool.dense;
  }

  /** The corrected `reserve_atomic` names exactly the entity `synchronize` allocates. */
  method ReserveGenerationChained() returns (reserved: Entity, spawned: seq<Entity>)
    ensures reserved == E(0, 2)
    ensures spawned == [reserved]
  {
    var pool := OneFreed();
    reserved := pool.ReserveAtomicChained();
    ghost var sp, fl := pool.sparse, pool.freeList;
    pool.Synchronize();
    AllocsAt(sp, fl, 1, 0);
    spawned := pool.dense;
  }

  /**
   * For any valid pool with no reservation pending, an entity reserved
   * with the corrected `reserve_atomic` is the one the next
   * `synchronize` appends to `dense`.
   */
  method ReservedIsSynchronized(pool: EntityPool) returns (reserved: Entity)
    requires pool.Valid() && pool.nReserved == 0
    modifies pool
    ensures pool.Valid() && pool.nReserved == 0
    ensures pool.dense == old(pool.dense) + [reserved]
  {
    reserved := pool.ReserveAtomicChained();
    ghost var sp, fl := pool.sparse, pool.freeList;
    pool.Synchronize();
    AllocsAt(sp, fl, 1, 0);
  }

  /**
   * `swap_remove` as written with a stale generation: the slot's entry is
   * cleared before the generations are compared, so the live occupant's
   * value drops out of the set although the call reports nothing removed.
   */
  method StaleSwapRemoveAsWritten() returns (removed: Option<int>, occupantKept: bool)
    ensures removed == None && !occupantKept
  {
    var sparseSet := new SparseSet<int>();
    var _ := sparseSet.Insert(SparseIndex(0, 2), 7);
    removed := sparseSet.SwapRemove(SparseIndex(0, INITIAL));
    occupantKept := sparseSet.Contains(SparseIndex(0, 2));
  }

  /** The generation-checked `swap_remove` leaves the live occupant alone. */
  method StaleSwapRemoveChecked() returns (removed: Option<int>, occupantKept: bool)
    ensures removed == None && occupantKept
  {
    var sparseSet := new SparseSet<int>();
    var _ := sparseSet.Insert(SparseIndex(0, 2), 7);
    removed := sparseSet.SwapRemoveChecked(SparseIndex(0, INITIAL));
    occupantKept := sparseSet.Contains(SparseIndex(0, 2));
  }
}
