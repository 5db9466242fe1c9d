/**
 * Component storage of `src/world/comp.rs` (and its older revision
 * `src/comp.rs`, whose map and pool code is the same apart from the
 * borrowing entry points): one entity-keyed `ComponentPool` per component
 * type, held in a map from type id to a borrow-flagged cell.
 *
 * Every pool here stores values of one type `V`; the downcasting of the
 * erased pools is not modelled.
 */
module Comp {
  import opened Wrappers
  import opened Sparse
  import opened Ent
  import opened Cell

  /** `BorrowError`, carrying the type id where the source carries the type name. */
  datatype BorrowError = NotRegistered(ty: nat) | AlreadyBorrowed(ty: nat)

  /** `ComponentPool<T>`: a sparse set addressed by entities. */
  class ComponentPool<V> {
    const sparseSet: SparseSet<V>

    /** The set's entries point inside its dense vectors. */
    ghost predicate Valid()
      reads this, sparseSet, sparseSet.toDense
    {
      sparseSet.Valid()
    }

    /**
     * Slots and dense positions agree both ways. Every operation but a
     * `swap_remove` with a stale generation keeps this.
     */
    ghost predicate Packed()
      reads this, sparseSet, sparseSet.toDense
    {
      sparseSet.Packed()
    }

    /** Slot -> (generation, component), as the underlying set holds it. */
    ghost function Contents(): map<nat, Stored<V>>
      reads this, sparseSet, sparseSet.toDense
      requires Valid()
    {
      sparseSet.Contents()
    }

    /** `ComponentPool::default`. */
    constructor ()
      ensures Valid() && Packed() && Contents() == map[]
      ensures fresh(sparseSet) && fresh(sparseSet.toDense)
    {
      sparseSet := new SparseSet();
    }

    /** `ComponentPool::contains`: the entity's generation occupies its slot. */
    function Contains(ent: Entity): (r: bool)
      reads this, sparseSet, sparseSet.toDense
      requires Valid()
      ensures r <==> Lookup(Contents(), ent.idx).Some?
    {
      sparseSet.Contains(ent.idx)
    }

    /** `ComponentPool::get` (and `get_mut` read through). */
    function Get(ent: Entity): (r: Option<V>)
      reads this, sparseSet, sparseSet.toDense
      requires Valid()
      ensures r == Lookup(Contents(), ent.idx)
      ensures r.Some? <==> Contains(ent)
    {
      sparseSet.Get(ent.idx)
    }

    /** `ComponentPool::get2_mut`: both components, when both entities have one. */
    function Get2Mut(a: Entity, b: Entity): (r: Option<(V, V)>)
      reads this, sparseSet, sparseSet.toDense
      requires Valid()
      ensures r.Some? <==> Contains(a) && Contains(b)
      ensures r.Some? ==> r.value == (Lookup(Contents(), a.idx).value, Lookup(Contents(), b.idx).value)
    {
      match Get(a)
      case None => None
      case Some(x) =>
        match Get(b)
        case None => None
        case Some(y) => Some((x, y))
    }

    /** `ComponentPool::as_slice`: the components in dense order. */
    function AsSlice(): (r: seq<V>)
      reads this, sparseSet, sparseSet.toDense
      requires Valid()
      ensures |r| == |Entities()|
    {
      sparseSet.data
    }

    /**
     * `ComponentPool::entities`: the dense `to_sparse` vector seen as
     * entities; it names, position by position, the owner of each component.
     */
    function Entities(): (r: seq<Entity>)
      reads this, sparseSet, sparseSet.toDense
      requires Valid()
      ensures |r| == |sparseSet.toSparse|
      ensures forall k :: 0 <= k < |r| ==> r[k].idx == sparseSet.toSparse[k]
    {
      seq(|sparseSet.toSparse|, k requires 0 <= k < |sparseSet.toSparse| reads sparseSet => Entity(sparseSet.toSparse[k]))
    }

    /**
     * `ComponentPool::parts`: the sparse array, the owners and the
     * components, of equal length, every sparse entry pointing into them.
     */
    function Parts(): (r: (seq<Option<DenseIndex>>, seq<Entity>, seq<V>))
      reads this, sparseSet, sparseSet.toDense
      requires Valid()
      ensures |r.1| == |r.2| && r.1 == Entities() && r.2 == AsSlice()
      ensures forall s :: 0 <= s < |r.0| && r.0[s].Some? ==> r.0[s].value.raw < |r.2|
    {
      var (a, _, c) := sparseSet.Parts();
      (a, Entities(), c)
    }

    /** In a packed pool the `k`-th owner reads back the `k`-th component. */
    lemma OwnersReadBack()
      requires Valid() && Packed()
      ensures forall k :: 0 <= k < |Entities()| ==> Get(Entities()[k]) == Some(AsSlice()[k])
    {
      sparseSet.PackedReadsBack();
    }

    /** `ComponentPool::insert`: the sparse set's insert at the entity's index. */
    method Insert(ent: Entity, comp: V) returns (r: Option<V>)
      requires Valid()
      modifies sparseSet, sparseSet.toDense
      ensures Valid()
      ensures r == (if ent.idx.raw in old(Contents()) then Some(old(Contents())[ent.idx.raw].value) else None)
      ensures Contents() == old(Contents())[ent.idx.raw := Stored(ent.idx.gen, comp)]
      ensures Get(ent) == Some(comp)
      ensures old(Packed()) ==> Packed()
    {
      r := sparseSet.Insert(ent.idx, comp);
    }

    /**
     * `ComponentPool::swap_remove`: the sparse set's `swap_remove` at the
     * entity's index. It returns the entity's own component. With a stale
     * generation it still clears the slot's entry: the occupant's
     * component drops out and the pool is no longer packed.
     */
    method SwapRemove(ent: Entity) returns (r: Option<V>)
      requires Valid()
      modifies sparseSet, sparseSet.toDense
      ensures Valid()
      ensures r == Lookup(old(Contents()), ent.idx)
      ensures r.Some? <==> old(Contains(ent))
      ensures r.None? || old(Packed()) ==> Contents() == old(Contents()) - {ent.idx.raw} && !Contains(ent)
      ensures old(Packed()) && r.Some? ==> Packed()
      ensures r.None? && ent.idx.raw in old(Contents()) ==> !Packed()
    {
      r := sparseSet.SwapRemove(ent.idx);
    }

    /** `*pool.get_mut(ent)? = v`: overwrites the entity's component, if present. */
    method SetThrough(ent: Entity, comp: V) returns (ok: bool)
      requires Valid()
      modifies sparseSet
      ensures Valid() && (old(Packed()) ==> Packed())
      ensures ok == old(Contains(ent))
      ensures Contents() == if ok then old(Contents())[ent.idx.raw := Stored(ent.idx.gen, comp)] else old(Contents())
    {
      ok := sparseSet.SetThrough(ent.idx, comp);
    }

    /**
     * `erased_remove`: `swap_remove` with the result dropped. The slot is
     * cleared unless the pool was packed and held the entity; in that case
     * the entity's component goes and the pool stays packed. A stale
     * entity evicts the slot's occupant and leaves the pool unpacked.
     */
    method ErasedRemove(ent: Entity)
      requires Valid()
      modifies sparseSet, sparseSet.toDense
      ensures Valid()
      ensures old(Packed()) || !old(Contains(ent)) ==> Contents() == old(Contents()) - {ent.idx.raw} && !Contains(ent)
      ensures old(Packed()) && old(Contains(ent)) ==> Packed()
      ensures !old(Contains(ent)) && ent.idx.raw in old(Contents()) ==> !Packed()
    {
      var _ := SwapRemove(ent);
    }

    /** `Index<Entity>`: the component, panicking when the entity has none. */
    function Index(ent: Entity): (r: Outcome<V>)
      reads this, sparseSet, sparseSet.toDense
      requires Valid()
      ensures r.Panic? <==> !Contains(ent)
      ensures r.Return? ==> Lookup(Contents(), ent.idx) == Some(r.value)
    {
      match Get(ent)
      case Some(v) => Return(v)
      case None => Panic
    }

    /** `IndexMut<Entity>` written through: panics when the entity has no component. */
    method IndexMut(ent: Entity, comp: V) returns (r: Outcome<()>)
      requires Valid()
      modifies sparseSet
      ensures Valid()
      ensures r.Panic? <==> !old(Contains(ent))
      ensures r.Return? ==> Contents() == old(Contents())[ent.idx.raw := Stored(ent.idx.gen, comp)] && Get(ent) == Some(comp)
      ensures r.Panic? ==> Contents() == old(Contents())
      ensures old(Packed()) ==> Packed()
    {
      var ok := SetThrough(ent, comp);
      r := if ok then Return(()) else Panic;
    }
  }

  /** One registry cell: the pool and its borrow flag. */
  datatype PoolCell<V> = PoolCell(pool: ComponentPool<V>, state: BorrowState)

  /** `ComponentPoolMap`: type id -> borrow-flagged pool. */
  class ComponentPoolMap<V> {
    var cells: map<nat, PoolCell<V>>

    /** The cells that can be borrowed obey the aliasing discipline. */
    ghost predicate Valid()
      reads this
    {
      forall ty :: ty in cells ==> Coherent(cells[ty].state)
    }

    /** `ComponentPoolMap::default`. */
    constructor ()
      ensures cells == map[] && Valid()
    {
      cells := map[];
    }

    /** `is_registered` (and `is_registered_raw`): the type has a cell. */
    function IsRegistered(ty: nat): (r: bool)
      reads this
      ensures r <==> ty in cells.Keys
    {
      ty in cells
    }

    /**
     * `register`: `true` when the type already had a pool, and then
     * nothing changes; otherwise a fresh empty, unborrowed pool is added.
     */
    method Register(ty: nat) returns (already: bool)
      requires Valid()
      modifies this
      ensures Valid()
      ensures already == old(IsRegistered(ty)) && IsRegistered(ty)
      ensures already ==> cells == old(cells)
      ensures !already ==>
        cells.Keys == old(cells).Keys + {ty} &&
        (forall t :: t in old(cells) ==> cells[t] == old(cells)[t]) &&
        fresh(cells[ty].pool) && fresh(cells[ty].pool.sparseSet) && fresh(cells[ty].pool.sparseSet.toDense) &&
        cells[ty].pool.Valid() && cells[ty].pool.Packed() && cells[ty].pool.Contents() == map[] &&
        cells[ty].state == UNBORROWED
    {
      if ty in cells {
        return true;
      }
      var pool := new ComponentPool();
      cells := cells[ty := PoolCell(pool, UNBORROWED)];
      already := false;
    }

    /**
     * `try_borrow`: `NotRegistered` for a type without a pool,
     * `AlreadyBorrowed` while an exclusive borrow is held, otherwise one
     * more shared borrow of that cell.
     */
    method TryBorrow(ty: nat) returns (r: Result<Handle, BorrowError>)
      requires Valid()
      modifies this
      ensures Valid()
      ensures r.Err? ==> r.error == if ty in old(cells) then AlreadyBorrowed(ty) else NotRegistered(ty)
      ensures ty !in old(cells) ==> r.Err?
      ensures ty in old(cells) ==> (r.Err? <==> !CanShare(old(cells)[ty].state))
      ensures r.Err? ==> cells == old(cells)
      ensures r.Ok? ==>
        r.value == Handle(ty, false) && ty in old(cells) &&
        cells == old(cells)[ty := old(cells)[ty].(state := AcquireShared(old(cells)[ty].state))]
    {
      if ty !in cells {
        return Err(NotRegistered(ty));
      }
      var cell := cells[ty];
      if !CanShare(cell.state) {
        return Err(AlreadyBorrowed(ty));
      }
      cells := cells[ty := cell.(state := AcquireShared(cell.state))];
      r := Ok(Handle(ty, false));
    }

    /**
     * `try_borrow_mut`: `NotRegistered` for a type without a pool,
     * `AlreadyBorrowed` while any borrow is held, otherwise the exclusive
     * borrow of that cell.
     */
    method TryBorrowMut(ty: nat) returns (r: Result<Handle, BorrowError>)
      requires Valid()
      modifies this
      ensures Valid()
      ensures r.Err? ==> r.error == if ty in old(cells) then AlreadyBorrowed(ty) else NotRegistered(ty)
      ensures ty !in old(cells) ==> r.Err?
      ensures ty in old(cells) ==> (r.Err? <==> !CanExclude(old(cells)[ty].state))
      ensures r.Err? ==> cells == old(cells)
      ensures r.Ok? ==>
        r.value == Handle(ty, true) && ty in old(cells) &&
        cells == old(cells)[ty := old(cells)[ty].(state := AcquireExclusive(old(cells)[ty].state))]
    {
      if ty !in cells {
        return Err(NotRegistered(ty));
      }
      var cell := cells[ty];
      if !CanExclude(cell.state) {
        return Err(AlreadyBorrowed(ty));
      }
      cells := cells[ty := cell.(state := AcquireExclusive(cell.state))];
      r := Ok(Handle(ty, true));
    }

    /**
     * The older `borrow`: `None` for a type without a pool, a panic while
     * an exclusive borrow is held, otherwise one more shared borrow.
     */
    method Borrow(ty: nat) returns (r: Outcome<Option<Handle>>)
      requires Valid()
      modifies this
      ensures Valid()
      ensures ty !in old(cells) ==> r == Return(None) && cells == old(cells)
      ensures ty in old(cells) && !CanShare(old(cells)[ty].state) ==> r == Panic && cells == old(cells)
      ensures ty in old(cells) && CanShare(old(cells)[ty].state) ==>
        r == Return(Some(Handle(ty, false))) &&
        cells == old(cells)[ty := old(cells)[ty].(state := AcquireShared(old(cells)[ty].state))]
    {
      var t := TryBorrow(ty);
      match t
      case Ok(h) => r := Return(Some(h));
      case Err(NotRegistered(_)) => r := Return(None);
      case Err(AlreadyBorrowed(_)) => r := Panic;
    }

    /**
     * The older `borrow_mut`: `None` for a type without a pool, a panic
     * while any borrow is held, otherwise the exclusive borrow.
     */
    method BorrowMut(ty: nat) returns (r: Outcome<Option<Handle>>)
      requires Valid()
      modifies this
      ensures Valid()
      ensures ty !in old(cells) ==> r == Return(None) && cells == old(cells)
      ensures ty in old(cells) && !CanExclude(old(cells)[ty].state) ==> r == Panic && cells == old(cells)
      ensures ty in old(cells) && CanExclude(old(cells)[ty].state) ==>
        r == Return(Some(Handle(ty, true))) &&
        cells == old(cells)[ty := old(cells)[ty].(state := AcquireExclusive(old(cells)[ty].state))]
    {
      var t := TryBorrowMut(ty);
      match t
      case Ok(h) => r := Return(Some(h));
      case Err(NotRegistered(_)) => r := Return(None);
      case Err(AlreadyBorrowed(_)) => r := Panic;
    }

    /** Dropping a `Comp`/`CompMut` guard gives its borrow back. */
    method DropGuard(h: Handle)
      requires Valid() && h.ty in cells && Holds(cells[h.ty].state, h)
      modifies this
      ensures Valid()
      ensures cells == old(cells)[h.ty := old(cells)[h.ty].(state := Release(old(cells)[h.ty].state, h))]
    {
      var cell := cells[h.ty];
      cells := cells[h.ty := cell.(state := Release(cell.state, h))];
    }

    /** `get_mut`: the pool of a registered type, reached without borrowing. */
    function GetMut(ty: nat): (r: Option<ComponentPool<V>>)
      reads this
      ensures r.Some? <==> IsRegistered(ty)
      ensures r.Some? ==> r.value == cells[ty].pool
    {
      if ty in cells then Some(cells[ty].pool) else None
    }

    /** `iter_mut`: every registered pool (in hash order, which is not modelled). */
    function IterMut(): (r: set<ComponentPool<V>>)
      reads this
      ensures forall ty :: ty in cells ==> cells[ty].pool in r
      ensures forall p :: p in r ==> exists ty :: ty in cells && cells[ty].pool == p
    {
      set ty | ty in cells :: cells[ty].pool
    }

    /** `display`: moves the cells into the returned guard, leaving an empty map behind. */
    method Display() returns (d: ComponentPoolMapDisplay<V>)
      modifies this
      ensures fresh(d) && d.original == this
      ensures d.held == old(cells) && cells == map[]
    {
      d := new ComponentPoolMapDisplay(this, cells);
      cells := map[];
    }

    /** Showing the map and dropping the guard leaves the map as it was. */
    method DisplayAndDrop()
      modifies this
      ensures cells == old(cells)
    {
      var d := Display();
      d.Drop();
    }
  }

  /** `ComponentPoolMapDisplay`: holds the swapped-out cells during printing. */
  class ComponentPoolMapDisplay<V> {
    /** The swapped-out cells. */
    var held: map<nat, PoolCell<V>>
    const original: ComponentPoolMap<V>

    constructor (original: ComponentPoolMap<V>, held: map<nat, PoolCell<V>>)
      ensures this.original == original && this.held == held
    {
      this.original := original;
      this.held := held;
    }

    /** `Drop`: swaps the cells back into the original map. */
    method Drop()
      modifies this, original
      ensures original.cells == old(held) && held == old(original.cells)
    {
      var tmp := original.cells;
      original.cells := held;
      held := tmp;
    }
  }
}
