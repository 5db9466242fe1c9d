/**
 * The `World` the command queue of `src/cmd.rs` writes to. Its definition
 * is not part of this model, so the world here is an `EntityPool` next to
 * one column per registered component type, each column being the
 * slot -> (generation, value) contents of that type's sparse set. The
 * entry points follow the component-set rules of `src/world.rs`: a set
 * is inserted or removed one member after another, each through the
 * column of its type.
 */
module World {
  import opened Wrappers
  import opened Sparse
  import opened Ent

  /** One component column: the contents of its sparse set. */
  type Column<V> = map<nat, Stored<V>>

  /** All columns, keyed by component type. */
  type Columns<V> = map<nat, Column<V>>

  /** The column with `ent`'s slot holding `v` at `ent`'s generation, as a pool `insert` leaves it. */
  function Put<V>(col: Column<V>, ent: Entity, v: V): (r: Column<V>)
    ensures ent.idx.raw in r && r[ent.idx.raw] == Stored(ent.idx.gen, v)
    ensures forall s :: s != ent.idx.raw ==> (s in r <==> s in col) && (s in col ==> r[s] == col[s])
  {
    col[ent.idx.raw := Stored(ent.idx.gen, v)]
  }

  /**
   * A component set written member by member into `cols` for `ent`:
   * every member overwrites the entity's slot in the column of its type,
   * and a member of an unregistered type panics.
   */
  function InsertAll<V>(cols: Columns<V>, ent: Entity, comps: seq<(nat, V)>): (r: Outcome<Columns<V>>)
    ensures r.Panic? <==> exists k :: 0 <= k < |comps| && comps[k].0 !in cols
    ensures r.Return? ==> r.value.Keys == cols.Keys
  {
    if |comps| == 0 then Return(cols)
    else
      var init := comps[..|comps| - 1];
      var (ty, v) := comps[|comps| - 1];
      assert forall k :: 0 <= k < |init| ==> init[k] == comps[k];
      match InsertAll(cols, ent, init)
      case Panic => Panic
      case Return(c) =>
        if ty in c then Return(c[ty := Put(c[ty], ent, v)]) else Panic
  }

  /** The value the last member of type `ty` in `comps` carries, if any. */
  function LastFor<V>(comps: seq<(nat, V)>, ty: nat): Option<V>
  {
    if |comps| == 0 then None
    else if comps[|comps| - 1].0 == ty then Some(comps[|comps| - 1].1)
    else LastFor(comps[..|comps| - 1], ty)
  }

  /**
   * After inserting a set, the entity holds in each column the last value
   * the set gave for that type, at the entity's generation; columns the
   * set does not name are unchanged.
   */
  lemma {:induction false} InsertAllEffect<V>(cols: Columns<V>, ent: Entity, comps: seq<(nat, V)>)
    requires InsertAll(cols, ent, comps).Return?
    ensures forall ty :: ty in cols ==>
      InsertAll(cols, ent, comps).value[ty] == (
        match LastFor(comps, ty)
        case None => cols[ty]
        case Some(v) => Put(cols[ty], ent, v))
    decreases |comps|
  {
    if |comps| > 0 {
      var init := comps[..|comps| - 1];
      InsertAllEffect(cols, ent, init);
    }
  }

  /** The column without `ent`'s component: the slot is cleared only when it holds `ent`'s generation. */
  function Without<V>(col: Column<V>, ent: Entity): (r: Column<V>)
    ensures ent.idx.raw !in r || r[ent.idx.raw].gen != ent.idx.gen
    ensures forall s :: s in r <==> s in col && (s == ent.idx.raw ==> col[s].gen != ent.idx.gen)
    ensures forall s :: s in r ==> r[s] == col[s]
  {
    if ent.idx.raw in col && col[ent.idx.raw].gen == ent.idx.gen then col - {ent.idx.raw} else col
  }

  /**
   * A component set removed member by member: the entity's slot is
   * cleared in the column of every member's type, and an unregistered
   * type panics.
   */
  function RemoveAll<V>(cols: Columns<V>, ent: Entity, tys: seq<nat>): (r: Outcome<Columns<V>>)
    ensures r.Panic? <==> exists k :: 0 <= k < |tys| && tys[k] !in cols
    ensures r.Return? ==> r.value.Keys == cols.Keys
  {
    if |tys| == 0 then Return(cols)
    else
      var init := tys[..|tys| - 1];
      var ty := tys[|tys| - 1];
      assert forall k :: 0 <= k < |init| ==> init[k] == tys[k];
      match RemoveAll(cols, ent, init)
      case Panic => Panic
      case Return(c) => if ty in c then Return(c[ty := Without(c[ty], ent)]) else Panic
  }

  /** After removing a set, the entity is gone from exactly the columns the set names. */
  lemma {:induction false} RemoveAllEffect<V>(cols: Columns<V>, ent: Entity, tys: seq<nat>)
    requires RemoveAll(cols, ent, tys).Return?
    ensures forall ty :: ty in cols ==>
      RemoveAll(cols, ent, tys).value[ty] == (if ty in tys then Without(cols[ty], ent) else cols[ty])
    decreases |tys|
  {
    if |tys| > 0 {
      var init := tys[..|tys| - 1];
      RemoveAllEffect(cols, ent, init);
      assert forall ty :: ty in tys <==> ty in init || ty == tys[|tys| - 1] by {
        assert tys == init + [tys[|tys| - 1]];
      }
    }
  }

  /** Every column without the entity's component: the despawn fan-out of `erased_remove`. */
  function Forget<V>(cols: Columns<V>, ent: Entity): (r: Columns<V>)
    ensures r.Keys == cols.Keys
    ensures forall ty :: ty in r ==> r[ty] == Without(cols[ty], ent)
  {
    map ty | ty in cols :: Without(cols[ty], ent)
  }

  /**
   * A snapshot of a world: the entity pool's slot array, its dense list and
   * its free list in chain order, next to the columns.
   */
  datatype WorldState<V> = WorldState(sparse: seq<Entry>, dense: seq<Entity>, freeList: seq<nat>, columns: Columns<V>)

  /** The head of a free list, as `first_free` holds it. */
  function Head(fl: seq<nat>): (r: Option<nat>)
    ensures r.Some? <==> |fl| > 0
    ensures r.Some? ==> r.value == fl[0]
  {
    if |fl| == 0 then None else Some(fl[0])
  }

  /**
   * What `spawn_empty` does to a snapshot: `alloc` recycles the head of
   * the free list one generation on, or appends a fresh slot at the
   * initial generation; the new entity goes at the end of `dense` and is
   * live at once, and no column changes.
   */
  function SpawnStep<V>(s: WorldState<V>): (r: (Entity, WorldState<V>))
    ensures r.1.dense == s.dense + [r.0] && r.1.columns == s.columns
    ensures LiveIn(r.1.sparse, r.1.dense, r.0) == Return(true)
    ensures !Issued(s.sparse, r.0)
  {
    if |s.freeList| > 0 && s.freeList[0] < |s.sparse| then
      var slot := s.freeList[0];
      var e := Entity(SparseIndex(slot, Increment(EntryGen(s.sparse[slot]))));
      (e, s.(sparse := s.sparse[slot := ToDense(DenseIndex(|s.dense|, e.idx.gen))],
             dense := s.dense + [e], freeList := s.freeList[1..]))
    else
      var e := Entity(SparseIndex(|s.sparse|, INITIAL));
      (e, s.(sparse := s.sparse + [ToDense(DenseIndex(|s.dense|, INITIAL))], dense := s.dense + [e]))
  }

  /**
   * What `despawn` does to a snapshot, with `dealloc` corrected to
   * swap-remove. An entity whose slot is not live at its generation
   * (an empty pool included) is reported `false` and nothing changes.
   * Otherwise the slot becomes the free-list head with the entity's
   * generation, the last entity of `dense` fills the hole and its slot is
   * repointed there, and every column drops the entity's component.
   * `Vec::swap_remove` panics at a position past the end, which a linked
   * pool never records.
   */
  function DespawnStep<V>(s: WorldState<V>, ent: Entity): (r: Outcome<(bool, WorldState<V>)>)
    ensures !Issued(s.sparse, ent) ==> r == Return((false, s))
    ensures Issued(s.sparse, ent) && r.Return? ==>
      r.value.0 && r.value.1.columns == Forget(s.columns, ent) && |r.value.1.dense| + 1 == |s.dense| &&
      r.value.1.freeList == [ent.idx.raw] + s.freeList
    ensures Linked(s.sparse, s.dense) ==> r.Return?
    ensures Linked(s.sparse, s.dense) && Issued(s.sparse, ent) ==>
      LiveIn(r.value.1.sparse, r.value.1.dense, ent) == Return(false)
  {
    if !Issued(s.sparse, ent) then Return((false, s))
    else
      var slot, h := ent.idx.raw, s.sparse[ent.idx.raw].dense.raw;
      if h >= |s.dense| then Panic
      else
        var dense := SwapRemoved(s.dense, h);
        var cleared := s.sparse[slot := Empty(ent.idx.gen, Head(s.freeList))];
        var sparse := if h < |dense| && dense[h].idx.raw < |cleared| then cleared[dense[h].idx.raw := ToDense(DenseIndex(h, dense[h].idx.gen))] else cleared;
        assert Linked(s.sparse, s.dense) && h < |dense| ==> dense[h].idx.raw != slot by {
          if Linked(s.sparse, s.dense) && h < |dense| {
            var last := |s.dense| - 1;
            assert s.sparse[s.dense[last].idx.raw].dense.raw == last;
          }
        }
        Return((true, WorldState(sparse, dense, [slot] + s.freeList, Forget(s.columns, ent))))
  }

  /** `World`, as far as the commands reach it. */
  class World<V> {
    const ents: EntityPool
    var columns: Columns<V>

    ghost predicate Valid()
      reads this, ents
    {
      ents.Valid() && Linked(ents.sparse, ents.dense)
    }

    /** The world's snapshot. */
    ghost function State(): WorldState<V>
      reads this, ents
    {
      WorldState(ents.sparse, ents.dense, ents.freeList, columns)
    }

    constructor ()
      ensures Valid() && fresh(ents) && columns == map[]
      ensures ents.sparse == [] && ents.dense == [] && ents.nReserved == 0
    {
      ents := new EntityPool();
      columns := map[];
    }

    /** `register`: adds an empty column unless the type has one; reports whether it had. */
    method Register(ty: nat) returns (already: bool)
      modifies this
      ensures already <==> ty in old(columns)
      ensures columns == if already then old(columns) else old(columns)[ty := map[]]
    {
      already := ty in columns;
      if !already {
        columns := columns[ty := map[]];
      }
    }

    /** `contains`: the entity pool's liveness test. */
    function Contains(ent: Entity): (r: Outcome<bool>)
      reads this, ents
      ensures Valid() ==> r == Return(Issued(ents.sparse, ent))
    {
      ents.Contains(ent)
    }

    /** `synchronize`: materialises the reserved entities. */
    method Synchronize()
      requires Valid()
      modifies ents
      ensures Valid() && ents.nReserved == 0
      ensures ents.dense == old(ents.dense) + Allocs(old(ents.sparse), old(ents.freeList), old(ents.nReserved))
      ensures old(ents.nReserved) == 0 ==> State() == old(State())
    {
      ents.Synchronize();
    }

    /** `spawn_empty`: one `alloc`, no components. */
    method SpawnEmpty() returns (e: Entity)
      requires Valid()
      modifies ents
      ensures Valid() && ents.nReserved == old(ents.nReserved)
      ensures e == NextAlloc(old(ents.sparse), old(ents.freeList), 0)
      ensures (e, State()) == SpawnStep(old(State()))
    {
      e := ents.Alloc();
    }

    /** `insert_set`: every member of the set into its column, in order. */
    method InsertSet(ent: Entity, comps: seq<(nat, V)>) returns (r: Outcome<()>)
      modifies this
      ensures r.Panic? <==> exists k :: 0 <= k < |comps| && comps[k].0 !in old(columns)
      ensures r.Return? ==> columns == InsertAll(old(columns), ent, comps).value
    {
      var n := 0;
      while n < |comps|
        invariant 0 <= n <= |comps|
        invariant InsertAll(old(columns), ent, comps[..n]) == Return(columns)
        invariant forall k :: 0 <= k < n ==> comps[k].0 in old(columns)
      {
        var (ty, v) := comps[n];
        assert comps[..n + 1][..n] == comps[..n];
        if ty !in columns {
          return Panic;
        }
        columns := columns[ty := Put(columns[ty], ent, v)];
        n := n + 1;
      }
      assert comps[..n] == comps;
      r := Return(());
    }

    /** `remove_set`: the entity out of the column of every type of the set, in order. */
    method RemoveSet(ent: Entity, tys: seq<nat>) returns (r: Outcome<()>)
      modifies this
      ensures r.Panic? <==> exists k :: 0 <= k < |tys| && tys[k] !in old(columns)
      ensures r.Return? ==> columns == RemoveAll(old(columns), ent, tys).value
    {
      var n := 0;
      while n < |tys|
        invariant 0 <= n <= |tys|
        invariant RemoveAll(old(columns), ent, tys[..n]) == Return(columns)
        invariant forall k :: 0 <= k < n ==> tys[k] in old(columns)
      {
        var ty := tys[n];
        assert tys[..n + 1][..n] == tys[..n];
        if ty !in columns {
          return Panic;
        }
        columns := columns[ty := Without(columns[ty], ent)];
        n := n + 1;
      }
      assert tys[..n] == tys;
      r := Return(());
    }

    /**
     * `despawn`: `dealloc` the entity, swap-removing it from `dense`, and,
     * when it was live, drop its component from every column; reports what
     * `dealloc` reported.
     */
    method Despawn(ent: Entity) returns (r: bool)
      requires Valid()
      modifies this, ents
      ensures Valid() && ents.nReserved == old(ents.nReserved)
      ensures DespawnStep(old(State()), ent) == Return((r, State()))
    {
      ghost var before := State();
      assert ents.firstFree == Head(before.freeList);
      r := ents.DeallocSwap(ent);
      if r {
        columns := Forget(columns, ent);
      }
    }
  }

  /** The snapshots of the world integration test, after each step. */
  function NoEntities(): WorldState<int>
  {
    WorldState([], [], [], map[])
  }

  function ThreeSpawned(): WorldState<int>
  {
    WorldState([ToDense(DenseIndex(0, INITIAL)), ToDense(DenseIndex(1, INITIAL)), ToDense(DenseIndex(2, INITIAL))],
               [Entity(SparseIndex(0, INITIAL)), Entity(SparseIndex(1, INITIAL)), Entity(SparseIndex(2, INITIAL))], [], map[])
  }

  function SecondDespawned(): WorldState<int>
  {
    WorldState([ToDense(DenseIndex(0, INITIAL)), Empty(INITIAL, None), ToDense(DenseIndex(1, INITIAL))],
               [Entity(SparseIndex(0, INITIAL)), Entity(SparseIndex(2, INITIAL))], [1], map[])
  }

  function SecondRespawned(): WorldState<int>
  {
    WorldState([ToDense(DenseIndex(0, INITIAL)), ToDense(DenseIndex(2, 2)), ToDense(DenseIndex(1, INITIAL))],
               [Entity(SparseIndex(0, INITIAL)), Entity(SparseIndex(2, INITIAL)), Entity(SparseIndex(1, 2))], [], map[])
  }

  /** With no free slot, a spawn appends a fresh slot at the initial generation. */
  lemma SpawnFresh<V>(s: WorldState<V>)
    requires |s.freeList| == 0
    ensures SpawnStep(s) == (Entity(SparseIndex(|s.sparse|, INITIAL)),
      s.(sparse := s.sparse + [ToDense(DenseIndex(|s.dense|, INITIAL))],
         dense := s.dense + [Entity(SparseIndex(|s.sparse|, INITIAL))]))
  {
  }

  /** Three spawns on an empty world fill slots 0, 1 and 2 in order. */
  lemma ThreeSpawnsStep()
    ensures SpawnStep(SpawnStep(SpawnStep(NoEntities()).1).1).1 == ThreeSpawned()
  {
    var s0 := NoEntities();
    SpawnFresh(s0);
    var s1 := SpawnStep(s0).1;
    assert s1 == WorldState([ToDense(DenseIndex(0, INITIAL))], [Entity(SparseIndex(0, INITIAL))], [], map[]);
    SpawnFresh(s1);
    var s2 := SpawnStep(s1).1;
    assert s2 == WorldState([ToDense(DenseIndex(0, INITIAL)), ToDense(DenseIndex(1, INITIAL))],
                            [Entity(SparseIndex(0, INITIAL)), Entity(SparseIndex(1, INITIAL))], [], map[]);
    SpawnFresh(s2);
  }

  /**
   * Despawning the second entity moves the third into its place and frees
   * slot 1; despawning it again finds it dead and changes nothing.
   */
  lemma DespawnSecondStep()
    ensures DespawnStep(ThreeSpawned(), Entity(SparseIndex(1, INITIAL))) == Return((true, SecondDespawned()))
    ensures DespawnStep(SecondDespawned(), Entity(SparseIndex(1, INITIAL))) == Return((false, SecondDespawned()))
  {
    var s := ThreeSpawned();
    var e := Entity(SparseIndex(1, INITIAL));
    assert Issued(s.sparse, e) && s.sparse[1].dense.raw == 1 && Head(s.freeList) == None;
    assert [1] + s.freeList == [1];
    var dense := SwapRemoved(s.dense, 1);
    assert dense == [Entity(SparseIndex(0, INITIAL)), Entity(SparseIndex(2, INITIAL))];
    var cleared := s.sparse[1 := Empty(INITIAL, None)];
    assert 1 < |dense| && dense[1].idx.raw == 2 < |cleared|;
    assert cleared[2 := ToDense(DenseIndex(1, INITIAL))] == SecondDespawned().sparse;
    assert Forget(s.columns, e) == map[];
    assert !Issued(SecondDespawned().sparse, e);
  }

  /** The next spawn recycles slot 1 one generation on and appends it to `dense`. */
  lemma RespawnStep()
    ensures SpawnStep(SecondDespawned()) == (Entity(SparseIndex(1, 2)), SecondRespawned())
  {
    var s := SecondDespawned();
    assert |s.freeList| > 0 && s.freeList[0] == 1 < |s.sparse|;
    assert Increment(EntryGen(s.sparse[1])) == 2 && |s.dense| == 2;
    assert s.dense + [Entity(SparseIndex(1, 2))] == SecondRespawned().dense;
    assert s.sparse[1 := ToDense(DenseIndex(2, 2))] == SecondRespawned().sparse;
    assert s.freeList[1..] == [];
  }

  /**
   * The entity order of the world integration test: three spawns, the
   * second despawned (once with success, once without), then a spawn
   * that recycles its slot one generation on and joins the end.
   */
  method SpawnDespawnOrder() returns (first: bool, again: bool, order: seq<Entity>)
    ensures first && !again
    ensures order == [Entity(SparseIndex(0, INITIAL)), Entity(SparseIndex(2, INITIAL)), Entity(SparseIndex(1, 2))]
  {
    var world := new World<int>();
    var e1 := world.SpawnEmpty();
    var e2 := world.SpawnEmpty();
    var e3 := world.SpawnEmpty();
    ThreeSpawnsStep();
    assert world.State() == ThreeSpawned() && e2 == Entity(SparseIndex(1, INITIAL));
    DespawnSecondStep();
    first := world.Despawn(e2);
    assert world.State() == SecondDespawned();
    again := world.Despawn(e2);
    assert world.State() == SecondDespawned();
    RespawnStep();
    var e4 := world.SpawnEmpty();
    order := world.ents.dense;
  }
}
