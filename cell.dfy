/**
 * The borrow flag of an `AtomicRefCell`, as the registries use it: any
 * number of shared borrows, or one exclusive borrow, each released when
 * its guard is dropped. Threads and memory orderings are not modelled;
 * the flag is a plain value held in each registry cell.
 */
module Cell {

  /** The outstanding shared borrows and whether an exclusive one is held. */
  datatype BorrowState = BorrowState(readers: nat, writer: bool)

  /** A freshly created cell. */
  const UNBORROWED: BorrowState := BorrowState(0, false)

  /** The aliasing discipline: an exclusive borrow excludes every other one. */
  predicate Coherent(b: BorrowState)
  {
    b.writer ==> b.readers == 0
  }

  /** `try_borrow` succeeds exactly when no exclusive borrow is held. */
  predicate CanShare(b: BorrowState)
  {
    !b.writer
  }

  /** `try_borrow_mut` succeeds exactly when no borrow of either kind is held. */
  predicate CanExclude(b: BorrowState)
  {
    !b.writer && b.readers == 0
  }

  /** Taking one more shared borrow; dropping its guard gives the state back. */
  function AcquireShared(b: BorrowState): (r: BorrowState)
    requires CanShare(b)
    ensures r.readers == b.readers + 1 && !r.writer
    ensures Coherent(r) && CanShare(r) && !CanExclude(r)
    ensures ReleaseShared(r) == b
  {
    b.(readers := b.readers + 1)
  }

  /** Taking the exclusive borrow; dropping its guard gives the state back. */
  function AcquireExclusive(b: BorrowState): (r: BorrowState)
    requires CanExclude(b)
    ensures r.writer && r.readers == 0
    ensures Coherent(r) && !CanShare(r) && !CanExclude(r)
    ensures ReleaseExclusive(r) == b
  {
    b.(writer := true)
  }

  /** Dropping a shared guard. */
  function ReleaseShared(b: BorrowState): (r: BorrowState)
    requires b.readers > 0
    ensures r.readers == b.readers - 1 && r.writer == b.writer
    ensures Coherent(b) ==> Coherent(r)
  {
    b.(readers := b.readers - 1)
  }

  /** Dropping the exclusive guard. */
  function ReleaseExclusive(b: BorrowState): (r: BorrowState)
    requires b.writer
    ensures !r.writer && r.readers == b.readers
    ensures Coherent(b) ==> CanExclude(r)
  {
    b.(writer := false)
  }

  /** A live guard on the cell of type `ty`: `Comp`/`Res` (shared) or `CompMut`/`ResMut` (exclusive). */
  datatype Handle = Handle(ty: nat, exclusive: bool)

  /** The state accounts for the guard `h`. */
  predicate Holds(b: BorrowState, h: Handle)
  {
    if h.exclusive then b.writer else b.readers > 0
  }

  /** Dropping the guard `h`. */
  function Release(b: BorrowState, h: Handle): (r: BorrowState)
    requires Holds(b, h)
    ensures Coherent(b) ==> Coherent(r)
    ensures h.exclusive ==> !r.writer && r.readers == b.readers
    ensures !h.exclusive ==> r.readers == b.readers - 1 && r.writer == b.writer
  {
    if h.exclusive then ReleaseExclusive(b) else ReleaseShared(b)
  }
}
