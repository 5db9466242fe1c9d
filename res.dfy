/**
 * The resource registry: one value per type, each in its own borrow cell.
 * `src/world/res.rs` and the older `src/res.rs` have the same operations
 * apart from `display`; one class models both. Type identities are `nat`
 * keys and every resource value has the type parameter `V`.
 */
module Res {
  import opened Wrappers
  import opened Cell

  /** An `AtomicRefCell<AnyResource>`: the stored value and its borrow flag. */
  datatype ResCell<V> = ResCell(value: V, state: BorrowState)

  /** `ResourceMap`: TypeId -> cell. */
  class ResourceMap<V> {
    var cells: map<nat, ResCell<V>>

    /** Every cell obeys the many-readers-or-one-writer discipline. */
    predicate Valid()
      reads this
    {
      forall ty :: ty in cells ==> Coherent(cells[ty].state)
    }

    /** `ResourceMap::default()`. */
    constructor ()
      ensures Valid() && cells == map[]
    {
      cells := map[];
    }

    /** `contains`: a value of the type is stored. */
    function Contains(ty: nat): (r: bool)
      reads this
      ensures r <==> ty in cells.Keys
    {
      ty in cells
    }

    /**
     * `insert`: a fresh unborrowed cell replaces whatever was stored for the
     * type; the previous value, if any, is handed back.
     */
    method Insert(ty: nat, x: V) returns (prev: Option<V>)
      requires Valid()
      modifies this
      ensures Valid() && Contains(ty)
      ensures prev.Some? <==> old(Contains(ty))
      ensures prev.Some? ==> prev.value == old(cells)[ty].value
      ensures cells == old(cells)[ty := ResCell(x, UNBORROWED)]
    {
      prev := if ty in cells then Some(cells[ty].value) else None;
      cells := cells[ty := ResCell(x, UNBORROWED)];
    }

    /** `remove`: takes the stored value out; afterwards the type is absent. */
    method Remove(ty: nat) returns (prev: Option<V>)
      requires Valid()
      modifies this
      ensures Valid() && !Contains(ty)
      ensures prev.Some? <==> old(Contains(ty))
      ensures prev.Some? ==> prev.value == old(cells)[ty].value
      ensures cells == old(cells) - {ty}
    {
      prev := if ty in cells then Some(cells[ty].value) else None;
      cells := cells - {ty};
    }

    /**
     * `borrow`: `None` for an absent type, a panic while an exclusive
     * borrow is held, otherwise one more shared borrow of that cell.
     */
    method Borrow(ty: nat) returns (r: Outcome<Option<Handle>>)
      requires Valid()
      modifies this
      ensures Valid()
      ensures !old(Contains(ty)) ==> r == Return(None) && cells == old(cells)
      ensures old(Contains(ty)) && !CanShare(old(cells)[ty].state) ==> r == Panic && cells == old(cells)
      ensures old(Contains(ty)) && CanShare(old(cells)[ty].state) ==>
        r == Return(Some(Handle(ty, false))) &&
        cells == old(cells)[ty := old(cells)[ty].(state := AcquireShared(old(cells)[ty].state))]
    {
      if ty !in cells {
        return Return(None);
      }
      var cell := cells[ty];
      if !CanShare(cell.state) {
        return Panic;
      }
      cells := cells[ty := cell.(state := AcquireShared(cell.state))];
      r := Return(Some(Handle(ty, false)));
    }

    /**
     * `borrow_mut`: `None` for an absent type, a panic while any borrow is
     * held, otherwise the exclusive borrow of that cell.
     */
    method BorrowMut(ty: nat) returns (r: Outcome<Option<Handle>>)
      requires Valid()
      modifies this
      ensures Valid()
      ensures !old(Contains(ty)) ==> r == Return(None) && cells == old(cells)
      ensures old(Contains(ty)) && !CanExclude(old(cells)[ty].state) ==> r == Panic && cells == old(cells)
      ensures old(Contains(ty)) && CanExclude(old(cells)[ty].state) ==>
        r == Return(Some(Handle(ty, true))) &&
        cells == old(cells)[ty := old(cells)[ty].(state := AcquireExclusive(old(cells)[ty].state))]
    {
      if ty !in cells {
        return Return(None);
      }
      var cell := cells[ty];
      if !CanExclude(cell.state) {
        return Panic;
      }
      cells := cells[ty := cell.(state := AcquireExclusive(cell.state))];
      r := Return(Some(Handle(ty, true)));
    }

    /** `Deref` of a `Res`/`ResMut` guard: the value behind it. */
    function Read(h: Handle): (r: V)
      requires h.ty in cells && Holds(cells[h.ty].state, h)
      reads this
      ensures Contains(h.ty) && r == cells[h.ty].value
    {
      cells[h.ty].value
    }

    /** `DerefMut` of a `ResMut` guard: replaces the value behind it. */
    method WriteThrough(h: Handle, x: V)
      requires Valid() && h.exclusive && h.ty in cells && Holds(cells[h.ty].state, h)
      modifies this
      ensures Valid() && h.ty in cells && Holds(cells[h.ty].state, h) && Read(h) == x
      ensures cells == old(cells)[h.ty := old(cells)[h.ty].(value := x)]
    {
      var cell := cells[h.ty];
      cells := cells[h.ty := cell.(value := x)];
    }

    /** Dropping a `Res`/`ResMut` guard gives its borrow back. */
    method DropGuard(h: Handle)
      requires Valid() && h.ty in cells && Holds(cells[h.ty].state, h)
      modifies this
      ensures Valid()
      ensures cells == old(cells)[h.ty := old(cells)[h.ty].(state := Release(old(cells)[h.ty].state, h))]
    {
      var cell := cells[h.ty];
      cells := cells[h.ty := cell.(state := Release(cell.state, h))];
    }

    /** `display`: moves the cells into the returned guard, leaving an empty map behind. */
    method Display() returns (d: ResourceMapDisplay<V>)
      modifies this
      ensures fresh(d) && d.original == this
      ensures d.held == old(cells) && cells == map[]
    {
      d := new ResourceMapDisplay(this, cells);
      cells := map[];
    }

    /** Showing the map and dropping the guard leaves the map as it was. */
    method DisplayAndDrop()
      modifies this
      ensures cells == old(cells)
    {
      var d := Display();
      d.Drop();
    }
  }

  /** `ResourceMapDisplay`: holds the swapped-out cells during printing. */
  class ResourceMapDisplay<V> {
    /** The swapped-out cells. */
    var held: map<nat, ResCell<V>>
    const original: ResourceMap<V>

    constructor (original: ResourceMap<V>, held: map<nat, ResCell<V>>)
      ensures this.original == original && this.held == held
    {
      this.original := original;
      this.held := held;
    }

    /** `Drop`: swaps the cells back into the original map. */
    method Drop()
      modifies this, original
      ensures original.cells == old(held) && held == old(original.cells)
    {
      var tmp := original.cells;
      original.cells := held;
      held := tmp;
    }
  }

  /** Two resource types of the unit tests, standing for `usize` and `isize`. */
  const U: nat := 0
  const I: nat := 1

  /**
   * Exclusive borrows of two different types are held at once, both are
   * written through, and after the guards are dropped `insert` returns the
   * updated value and `remove` the re-inserted one.
   */
  method TwoExclusiveBorrows() returns (u: Outcome<Option<Handle>>, i: Outcome<Option<Handle>>,
                                        readU: int, readI: int, reinserted: Option<int>, removed: Option<int>)
    ensures u == Return(Some(Handle(U, true))) && i == Return(Some(Handle(I, true)))
    ensures readU == 35 && readI == -25
    ensures reinserted == Some(35) && removed == Some(2)
  {
    var m := new ResourceMap<int>();
    var _ := m.Insert(U, 30);
    var _ := m.Insert(I, -30);
    u := m.BorrowMut(U);
    i := m.BorrowMut(I);
    var hu, hi := Handle(U, true), Handle(I, true);
    m.WriteThrough(hu, m.Read(hu) + 5);
    m.WriteThrough(hi, m.Read(hi) + 5);
    readU, readI := m.Read(hu), m.Read(hi);
    m.DropGuard(hu);
    m.DropGuard(hi);
    reinserted := m.Insert(U, 2);
    removed := m.Remove(U);
  }

  /** A shared borrow requested while the exclusive one is held panics. */
  method SharedAfterExclusive() returns (first: Outcome<Option<Handle>>, second: Outcome<Option<Handle>>)
    ensures first == Return(Some(Handle(U, true)))
    ensures second == Panic
  {
    var m := new ResourceMap<int>();
    var _ := m.Insert(U, 0);
    first := m.BorrowMut(U);
    second := m.Borrow(U);
  }

  /** Any number of shared borrows of one type coexist. */
  method SharedBorrowsCoexist() returns (first: Outcome<Option<Handle>>, second: Outcome<Option<Handle>>)
    ensures first == Return(Some(Handle(U, false)))
    ensures second == Return(Some(Handle(U, false)))
  {
    var m := new ResourceMap<int>();
    var _ := m.Insert(U, 0);
    first := m.Borrow(U);
    second := m.Borrow(U);
  }
}
