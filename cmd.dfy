/**
 * The deferred command queue of `src/cmd.rs`. A command's bytes are not
 * modelled: the byte buffer is its length, and each meta carries the
 * command itself where the source keeps a type-specific function that
 * reads the command back from the buffer at its offset. Closures used as
 * commands are not modelled; the four command structs are.
 */
module Cmd {
  import opened Wrappers
  import opened Sparse
  import opened Ent
  import opened World

  /** `Spawn`, `Despawn`, `Insert` and `Remove`, with their component sets. */
  datatype Command<V> =
    | Spawn(comps: seq<(nat, V)>)
    | Despawn(entity: Entity)
    | Insert(entity: Entity, comps: seq<(nat, V)>)
    | Remove(entity: Entity, tys: seq<nat>)

  /** `CommandMeta`: where the command's bytes start, and what replays them. */
  datatype CommandMeta<V> = CommandMeta(offset: nat, command: Command<V>)

  /** Offsets never decrease in push order and never pass the end of the bytes. */
  predicate OffsetsOrdered<V>(metas: seq<CommandMeta<V>>, byteLen: nat)
  {
    (forall i, j :: 0 <= i < j < |metas| ==> metas[i].offset <= metas[j].offset) &&
    (forall i :: 0 <= i < |metas| ==> metas[i].offset <= byteLen)
  }

  /** The commands of a queue in push order. */
  function Commands<V>(metas: seq<CommandMeta<V>>): (r: seq<Command<V>>)
    ensures |r| == |metas| && forall k :: 0 <= k < |r| ==> r[k] == metas[k].command
  {
    seq(|metas|, k requires 0 <= k < |metas| => metas[k].command)
  }

  /**
   * What `Command::write` does to a world snapshot, or `Panic`.
   * - `Spawn`: `spawn_empty`, then `insert_set` on the new entity.
   * - `Despawn`: `despawn`; an entity that is not live is only warned about.
   * - `Insert`: `insert_set` on a live entity, a panic on any other.
   * - `Remove`: `remove_set` on a live entity, nothing on any other.
   */
  function Step<V>(cmd: Command<V>, s: WorldState<V>): (r: Outcome<WorldState<V>>)
    ensures cmd.Spawn? ==>
      (r.Panic? <==> exists k :: 0 <= k < |cmd.comps| && cmd.comps[k].0 !in s.columns) &&
      (r.Return? ==> |r.value.dense| == |s.dense| + 1 &&
                     LiveIn(r.value.sparse, r.value.dense, r.value.dense[|s.dense|]) == Return(true))
    ensures cmd.Despawn? && !Issued(s.sparse, cmd.entity) ==> r == Return(s)
    ensures cmd.Despawn? && Linked(s.sparse, s.dense) && Issued(s.sparse, cmd.entity) ==>
      r.Return? &&
      LiveIn(r.value.sparse, r.value.dense, cmd.entity) == Return(false) &&
      r.value.columns == Forget(s.columns, cmd.entity)
    ensures cmd.Insert? && LiveIn(s.sparse, s.dense, cmd.entity) != Return(true) ==> r == Panic
    ensures cmd.Remove? && LiveIn(s.sparse, s.dense, cmd.entity) == Return(false) ==> r == Return(s)
    ensures (cmd.Insert? || cmd.Remove?) && r.Return? ==> r.value.sparse == s.sparse && r.value.dense == s.dense
    ensures r.Return? ==> r.value.columns.Keys == s.columns.Keys
  {
    match cmd
    case Spawn(comps) =>
      var (e, t) := SpawnStep(s);
      (match InsertAll(t.columns, e, comps)
       case Panic => Panic
       case Return(c) => Return(t.(columns := c)))
    case Despawn(ent) =>
      (match DespawnStep(s, ent)
       case Panic => Panic
       case Return((_, t)) => Return(t))
    case Insert(ent, comps) =>
      if LiveIn(s.sparse, s.dense, ent) != Return(true) then Panic
      else
        (match InsertAll(s.columns, ent, comps)
         case Panic => Panic
         case Return(c) => Return(s.(columns := c)))
    case Remove(ent, tys) =>
      (match LiveIn(s.sparse, s.dense, ent)
       case Panic => Panic
       case Return(live) =>
         if !live then Return(s)
         else
           (match RemoveAll(s.columns, ent, tys)
            case Panic => Panic
            case Return(c) => Return(s.(columns := c))))
  }

  /**
   * The commands replayed one after another from `s`, stopping at the
   * first panic; no command registers or drops a component type.
   */
  function Replay<V>(cmds: seq<Command<V>>, s: WorldState<V>): (r: Outcome<WorldState<V>>)
    ensures r.Return? ==> r.value.columns.Keys == s.columns.Keys
    decreases |cmds|
  {
    if |cmds| == 0 then Return(s)
    else
      match Step(cmds[0], s)
      case Panic => Panic
      case Return(t) => Replay(cmds[1..], t)
  }

  /**
   * Replaying two queues one after the other is replaying their
   * concatenation: a panic in the first skips the second.
   */
  lemma {:induction false} ReplayAppend<V>(a: seq<Command<V>>, b: seq<Command<V>>, s: WorldState<V>)
    ensures Replay(a + b, s) == (match Replay(a, s) case Panic => Panic case Return(t) => Replay(b, t))
    decreases |a|
  {
    if |a| > 0 {
      assert (a + b)[0] == a[0] && (a + b)[1..] == a[1..] + b;
      if Step(a[0], s).Return? {
        ReplayAppend(a[1..], b, Step(a[0], s).value);
      }
    } else {
      assert a + b == b;
    }
  }

  /** `Command::write`: the command's `Step` on the world, keeping the pool valid unless it panics. */
  method Write<V>(cmd: Command<V>, world: World<V>) returns (r: Outcome<()>)
    requires world.Valid()
    modifies world, world.ents
    ensures world.ents.nReserved == old(world.ents.nReserved)
    ensures r.Panic? <==> Step(cmd, old(world.State())).Panic?
    ensures r.Return? ==> world.Valid() && world.State() == Step(cmd, old(world.State())).value
  {
    match cmd
    case Spawn(comps) =>
      var e := world.SpawnEmpty();
      r := world.InsertSet(e, comps);
    case Despawn(ent) =>
      var _ := world.Despawn(ent);
      r := Return(());
    case Insert(ent, comps) =>
      var live := world.Contains(ent);
      if live == Return(true) {
        r := world.InsertSet(ent, comps);
      } else {
        r := Panic;
      }
    case Remove(ent, tys) =>
      var live := world.Contains(ent);
      if live.Panic? {
        r := Panic;
      } else if live.value {
        r := world.RemoveSet(ent, tys);
      } else {
        r := Return(());
      }
  }

  /** `CommandQueue`: the byte length of the queued commands and their metas. */
  class CommandQueue<V> {
    /** `bytes.len()`. */
    var byteLen: nat
    var metas: seq<CommandMeta<V>>

    predicate Valid()
      reads this
    {
      OffsetsOrdered(metas, byteLen)
    }

    /** `CommandQueue::default`. */
    constructor ()
      ensures Valid() && byteLen == 0 && metas == []
    {
      byteLen := 0;
      metas := [];
    }

    /**
     * `push`: one meta at the current end of the bytes, then the command's
     * `size` bytes (none for a zero-sized command).
     */
    method Push(cmd: Command<V>, size: nat)
      requires Valid()
      modifies this
      ensures Valid()
      ensures metas == old(metas) + [CommandMeta(old(byteLen), cmd)]
      ensures byteLen == old(byteLen) + size
    {
      var oldLen := byteLen;
      metas := metas + [CommandMeta(oldLen, cmd)];
      if size > 0 {
        byteLen := oldLen + size;
      }
    }

    /**
     * `apply`: `synchronize` the world, empty the bytes, then drain the
     * metas and replay each command once, in push order. A panicking
     * command ends the replay; the drain still leaves the queue empty.
     * `synced` is the world as `synchronize` leaves it.
     */
    method Apply(world: World<V>) returns (r: Outcome<()>, ghost synced: WorldState<V>)
      requires world.Valid()
      modifies this, world, world.ents
      ensures Valid() && metas == [] && byteLen == 0
      ensures synced.columns == old(world.columns)
      ensures synced.dense == old(world.ents.dense) +
        Allocs(old(world.ents.sparse), old(world.ents.freeList), old(world.ents.nReserved))
      ensures old(world.ents.nReserved) == 0 ==> synced == old(world.State())
      ensures r.Panic? <==> Replay(Commands(old(metas)), synced).Panic?
      ensures r.Return? ==>
        world.Valid() && world.ents.nReserved == 0 && world.State() == Replay(Commands(old(metas)), synced).value
    {
      world.Synchronize();
      synced := world.State();
      byteLen := 0;
      var queue := metas;
      metas := [];
      ghost var cmds := Commands(queue);
      var n := 0;
      while n < |queue|
        invariant 0 <= n <= |queue| && metas == [] && byteLen == 0
        invariant world.Valid() && world.ents.nReserved == 0
        invariant Replay(cmds, synced) == Replay(cmds[n..], world.State())
      {
        assert cmds[n..][0] == queue[n].command && cmds[n..][1..] == cmds[n + 1..];
        var step := Write(queue[n].command, world);
        if step.Panic? {
          return Panic, synced;
        }
        n := n + 1;
      }
      r := Return(());
    }
  }

  /** Component types of the scenarios below. */
  const U: nat := 0
  const I: nat := 1

  /** A world with one empty column for `U`. */
  function RegisteredOnly(): WorldState<int>
  {
    WorldState([], [], [], map[U := map[]])
  }

  /** A new world with a column registered for `U`. */
  method RegisteredWorld() returns (world: World<int>)
    ensures fresh(world) && fresh(world.ents)
    ensures world.Valid() && world.ents.nReserved == 0 && world.State() == RegisteredOnly()
  {
    world := new World<int>();
    var _ := world.Register(U);
  }

  /** The snapshots the two-spawn scenario below passes through. */
  function SpawnedOnce(): WorldState<int>
  {
    WorldState([ToDense(DenseIndex(0, INITIAL))], [Entity(SparseIndex(0, INITIAL))], [],
               map[U := map[0 := Stored(INITIAL, 10)]])
  }

  function SpawnedTwice(): WorldState<int>
  {
    WorldState([ToDense(DenseIndex(0, INITIAL)), ToDense(DenseIndex(1, INITIAL))],
               [Entity(SparseIndex(0, INITIAL)), Entity(SparseIndex(1, INITIAL))], [],
               map[U := map[0 := Stored(INITIAL, 10), 1 := Stored(INITIAL, 20)]])
  }

  /** Replaying two spawns on a world with one empty column fills slots 0 and 1 in order. */
  lemma TwoSpawnsReplay()
    ensures Replay([Spawn([(U, 10)]), Spawn([(U, 20)])], RegisteredOnly()) == Return(SpawnedTwice())
  {
    var s0 := RegisteredOnly();
    var s1, s2 := SpawnedOnce(), SpawnedTwice();
    var c0, c1 := Spawn([(U, 10)]), Spawn([(U, 20)]);
    assert [(U, 10)][..0] == [] && [(U, 20)][..0] == [];
    assert !(|s0.freeList| > 0);
    assert SpawnStep(s0).0 == Entity(SparseIndex(0, INITIAL));
    assert SpawnStep(s0).1.sparse == s1.sparse;
    assert SpawnStep(s0).1.dense == s1.dense;
    assert SpawnStep(s0).1.freeList == s1.freeList;
    assert SpawnStep(s0).1.columns == s0.columns;
    assert SpawnStep(s0) == (Entity(SparseIndex(0, INITIAL)), s1.(columns := s0.columns));
    var e0, e1 := Entity(SparseIndex(0, INITIAL)), Entity(SparseIndex(1, INITIAL));
    assert InsertAll(s0.columns, e0, []) == Return(s0.columns);
    assert Put(map[], e0, 10) == map[0 := Stored(INITIAL, 10)];
    assert s0.columns[U := map[0 := Stored(INITIAL, 10)]] == s1.columns;
    assert InsertAll(s0.columns, e0, [(U, 10)]) == Return(s1.columns);
    assert Step(c0, s0) == Return(s1);
    assert !(|s1.freeList| > 0);
    assert SpawnStep(s1).0 == e1;
    assert SpawnStep(s1).1.sparse == s2.sparse;
    assert SpawnStep(s1).1.dense == s2.dense;
    assert SpawnStep(s1) == (e1, s2.(columns := s1.columns));
    assert InsertAll(s1.columns, e1, []) == Return(s1.columns);
    assert Put(s1.columns[U], e1, 20) == s2.columns[U];
    assert s1.columns[U := s2.columns[U]] == s2.columns;
    assert InsertAll(s1.columns, e1, [(U, 20)]) == Return(s2.columns);
    assert Step(c1, s1) == Return(s2);
    assert [c0, c1][1..] == [c1] && [c1][1..] == [];
    assert Replay([c1], s1) == Replay([], s2) == Return(s2);
    assert Replay([c0, c1], s0) == Replay([c1], s1);
  }

  /**
   * Two queued spawns replay in push order: the first takes slot 0, the
   * second slot 1, both at the initial generation, each with its own
   * component.
   */
  method SpawnsReplayInOrder() returns (r: Outcome<()>, first: Option<Stored<int>>, second: Option<Stored<int>>)
    ensures r.Return?
    ensures first == Some(Stored(INITIAL, 10)) && second == Some(Stored(INITIAL, 20))
  {
    var world := RegisteredWorld();
    var q := TwoSpawnsQueued();
    r := ApplyTwoSpawns(q, world);
    assert world.columns == SpawnedTwice().columns;
    first := if U in world.columns && 0 in world.columns[U] then Some(world.columns[U][0]) else None;
    second := if U in world.columns && 1 in world.columns[U] then Some(world.columns[U][1]) else None;
  }

  /** Applying the two queued spawns to the registered world. */
  method ApplyTwoSpawns(q: CommandQueue<int>, world: World<int>) returns (r: Outcome<()>)
    requires q.Valid() && Commands(q.metas) == [Spawn([(U, 10)]), Spawn([(U, 20)])]
    requires world.Valid() && world.ents.nReserved == 0 && world.State() == RegisteredOnly()
    modifies q, world, world.ents
    ensures r.Return? && world.State() == SpawnedTwice()
  {
    TwoSpawnsReplay();
    ghost var cmds := Commands(q.metas);
    ghost var synced;
    r, synced := q.Apply(world);
    assert synced == RegisteredOnly();
    assert Replay(cmds, synced) == Return(SpawnedTwice());
  }

  /** A queue holding the two spawns of the scenario above, in push order. */
  method TwoSpawnsQueued() returns (q: CommandQueue<int>)
    ensures fresh(q) && q.Valid()
    ensures Commands(q.metas) == [Spawn([(U, 10)]), Spawn([(U, 20)])]
  {
    q := new CommandQueue<int>();
    q.Push(Spawn([(U, 10)]), 8);
    q.Push(Spawn([(U, 20)]), 8);
    assert q.metas == [CommandMeta(0, Spawn([(U, 10)])), CommandMeta(8, Spawn([(U, 20)]))];
  }

  /** A world after one entity came and went from slot 0. */
  function OneCameAndWent(): WorldState<int>
  {
    WorldState([Empty(INITIAL, None)], [], [0], map[U := map[]])
  }

  /** Spawning into the empty world and despawning the entity again frees slot 0 at generation 1. */
  lemma SpawnThenDespawn()
    ensures SpawnStep(RegisteredOnly()).0 == Entity(SparseIndex(0, INITIAL))
    ensures DespawnStep(SpawnStep(RegisteredOnly()).1, Entity(SparseIndex(0, INITIAL))) ==
            Return((true, OneCameAndWent()))
  {
    var e := Entity(SparseIndex(0, INITIAL));
    var s1 := SpawnStep(RegisteredOnly()).1;
    assert s1 == WorldState([ToDense(DenseIndex(0, INITIAL))], [e], [], map[U := map[]]);
    assert Issued(s1.sparse, e) && s1.sparse[0].dense.raw == 0;
    assert SwapRemoved(s1.dense, 0) == [];
    assert s1.sparse[0 := Empty(INITIAL, None)] == OneCameAndWent().sparse;
    assert Without<int>(map[], e) == map[];
    assert Forget(s1.columns, e) == map[U := map[]];
    assert Head(s1.freeList) == None && [0] + s1.freeList == [0];
  }

  /** On the freed slot, each command follows its stale-entity policy. */
  lemma StaleSteps()
    ensures Step(Despawn(Entity(SparseIndex(0, INITIAL))), OneCameAndWent()) == Return(OneCameAndWent())
    ensures Step(Remove(Entity(SparseIndex(0, INITIAL)), [U]), OneCameAndWent()) == Return(OneCameAndWent())
    ensures Step(Insert(Entity(SparseIndex(0, INITIAL)), [(U, 1)]), OneCameAndWent()).Panic?
  {
    var e := Entity(SparseIndex(0, INITIAL));
    assert !Issued(OneCameAndWent().sparse, e);
    assert LiveIn(OneCameAndWent().sparse, OneCameAndWent().dense, e) == Return(false);
  }

  /**
   * The stale-entity policies: despawning an entity twice is harmless,
   * removing from it is a no-op, and inserting into it panics.
   */
  method StaleEntityPolicies() returns (despawnAgain: Outcome<()>, removeStale: Outcome<()>, insertStale: Outcome<()>)
    ensures despawnAgain.Return? && removeStale.Return? && insertStale.Panic?
  {
    var world, e := CameAndWent();
    StaleSteps();
    despawnAgain := Write(Despawn(e), world);
    assert world.State() == OneCameAndWent();
    removeStale := Write(Remove(e, [U]), world);
    assert world.State() == OneCameAndWent();
    insertStale := Write(Insert(e, [(U, 1)]), world);
  }

  /** A registered world into which one entity was spawned and then despawned. */
  method CameAndWent() returns (world: World<int>, e: Entity)
    ensures fresh(world) && fresh(world.ents)
    ensures world.Valid() && world.ents.nReserved == 0
    ensures world.State() == OneCameAndWent() && e == Entity(SparseIndex(0, INITIAL))
  {
    world := RegisteredWorld();
    SpawnThenDespawn();
    e := world.SpawnEmpty();
    var _ := world.Despawn(e);
  }
}
