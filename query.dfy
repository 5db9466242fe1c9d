/**
 * Single-view queries of `src/query.rs`: a view splits a component pool
 * into its owners and a `Binding` (the sparse array with the dense
 * components), and the iterators walk the dense components by an index.
 * The shared and the mutable binding read alike here; writing through a
 * yielded `&mut` is not modelled.
 */
module Query {
  import opened Wrappers
  import opened Sparse
  import opened Ent
  import opened Comp

  /** `Binding`: the pool's sparse array and its dense components. */
  datatype Binding<V> = Binding(toDense: seq<Option<DenseIndex>>, data: seq<V>)

  /**
   * `View::into_parts`: the owners and the binding, both taken from the
   * same pool's `parts`, so the owners and the components have the same
   * length.
   */
  function IntoParts<V>(pool: ComponentPool<V>): (r: (seq<Entity>, Binding<V>))
    reads pool, pool.sparseSet, pool.sparseSet.toDense
    requires pool.Valid()
    ensures |r.0| == |r.1.data|
    ensures r.0 == pool.Entities() && r.1.data == pool.AsSlice()
    ensures forall s :: 0 <= s < |r.1.toDense| && r.1.toDense[s].Some? ==> r.1.toDense[s].value.raw < |r.1.data|
  {
    var (toDense, ents, data) := pool.Parts();
    (ents, Binding(toDense, data))
  }

  /**
   * `Binding::get`: `None` when the slot lies beyond the sparse array or is
   * empty, otherwise the component at the stored dense position, indexed
   * with a bounds check (a panic past the end) and with no generation
   * comparison.
   */
  function BindingGet<V>(b: Binding<V>, ent: Entity): (r: Outcome<Option<V>>)
    ensures r.Panic? <==>
      ent.idx.raw < |b.toDense| && b.toDense[ent.idx.raw].Some? && b.toDense[ent.idx.raw].value.raw >= |b.data|
    ensures r == Return(None) <==> ent.idx.raw >= |b.toDense| || b.toDense[ent.idx.raw].None?
  {
    if ent.idx.raw >= |b.toDense| then Return(None)
    else match b.toDense[ent.idx.raw]
      case None => Return(None)
      case Some(dense) => if dense.raw < |b.data| then Return(Some(b.data[dense.raw])) else Panic
  }

  /**
   * On a view of a pool, `get` never panics and returns whatever occupies
   * the entity's slot, whichever generation it belongs to; it agrees with
   * the pool's own generation-checked `get` on live entities.
   */
  lemma BindingIgnoresGeneration<V>(pool: ComponentPool<V>, ent: Entity)
    requires pool.Valid()
    ensures BindingGet(IntoParts(pool).1, ent) ==
      Return(if ent.idx.raw in pool.Contents() then Some(pool.Contents()[ent.idx.raw].value) else None)
    ensures pool.Contains(ent) ==> BindingGet(IntoParts(pool).1, ent) == Return(pool.Get(ent))
  {
    var b := IntoParts(pool).1;
    var td := pool.sparseSet.toDense.data;
    assert b.toDense == td && b.data == pool.sparseSet.data;
    if ent.idx.raw < |td| && td[ent.idx.raw].Some? {
      assert ent.idx.raw in pool.Contents();
      assert pool.Contents()[ent.idx.raw].value == pool.sparseSet.data[td[ent.idx.raw].value.raw];
    } else {
      assert ent.idx.raw !in pool.Contents();
    }
  }

  /**
   * A stale entity whose slot has been reused reads the new occupant's
   * component through the binding although the pool reports it absent.
   */
  lemma StaleEntityReadsOccupant<V>(pool: ComponentPool<V>, ent: Entity)
    requires pool.Valid()
    requires ent.idx.raw in pool.Contents() && pool.Contents()[ent.idx.raw].gen != ent.idx.gen
    ensures pool.Get(ent) == None && !pool.Contains(ent)
    ensures BindingGet(IntoParts(pool).1, ent) == Return(Some(pool.Contents()[ent.idx.raw].value))
  {
    BindingIgnoresGeneration(pool, ent);
  }

  /** `SingleIter`: the owners, the binding and the next dense position to yield. */
  class SingleIter<V> {
    const ents: seq<Entity>
    const binding: Binding<V>
    var index: nat

    /** Owners and components line up, and the index never passes their end. */
    predicate Valid()
      reads this
    {
      |ents| == |binding.data| && index <= |ents|
    }

    constructor (ents: seq<Entity>, binding: Binding<V>, index: nat)
      requires |ents| == |binding.data| && index <= |ents|
      ensures Valid() && this.ents == ents && this.binding == binding && this.index == index
    {
      this.ents := ents;
      this.binding := binding;
      this.index := index;
    }

    /** `next`: the component at `index`, stepping past it; `None`, standing still, once exhausted. */
    method Next() returns (r: Option<V>)
      requires Valid()
      modifies this
      ensures Valid()
      ensures old(index) < |ents| ==> r == Some(binding.data[old(index)]) && index == old(index) + 1
      ensures old(index) == |ents| ==> r == None && index == old(index)
    {
      if index < |ents| {
        var i := index;
        index := index + 1;
        r := Some(binding.data[i]);
      } else {
        r := None;
      }
    }

    /** `entities`: the same walk, from the same position, yielding owners too. */
    method Entities() returns (it: SingleIterWithEntities<V>)
      requires Valid()
      ensures fresh(it) && it.Valid()
      ensures it.ents == ents && it.binding == binding && it.index == index
    {
      it := new SingleIterWithEntities(ents, binding, index);
    }

    /** `Iterator::collect`: `next` until `None`; the components from `index` on, in dense order. */
    method Collect() returns (items: seq<V>)
      requires Valid()
      modifies this
      ensures Valid() && index == |ents|
      ensures items == binding.data[old(index)..]
    {
      items := [];
      while true
        invariant Valid() && old(index) <= index
        invariant items == binding.data[old(index)..index]
        decreases |ents| - index
      {
        var x := Next();
        if x.None? {
          return;
        }
        items := items + [x.value];
      }
    }
  }

  /** `SingleIterWithEntities`: a `SingleIter` that yields each owner with its component. */
  class SingleIterWithEntities<V> {
    const ents: seq<Entity>
    const binding: Binding<V>
    var index: nat

    /** Owners and components line up, and the index never passes their end. */
    predicate Valid()
      reads this
    {
      |ents| == |binding.data| && index <= |ents|
    }

    constructor (ents: seq<Entity>, binding: Binding<V>, index: nat)
      requires |ents| == |binding.data| && index <= |ents|
      ensures Valid() && this.ents == ents && this.binding == binding && this.index == index
    {
      this.ents := ents;
      this.binding := binding;
      this.index := index;
    }

    /** `next`: the owner and component at `index`, stepping past them; `None` once exhausted. */
    method Next() returns (r: Option<(Entity, V)>)
      requires Valid()
      modifies this
      ensures Valid()
      ensures old(index) < |ents| ==> r == Some((ents[old(index)], binding.data[old(index)])) && index == old(index) + 1
      ensures old(index) == |ents| ==> r == None && index == old(index)
    {
      if index < |ents| {
        var i := index;
        index := index + 1;
        r := Some((ents[i], binding.data[i]));
      } else {
        r := None;
      }
    }

    /** `Iterator::collect`: the owner/component pairs from `index` on, in dense order. */
    method Collect() returns (items: seq<(Entity, V)>)
      requires Valid()
      modifies this
      ensures Valid() && index == |ents|
      ensures |items| == |ents| - old(index)
      ensures forall k :: 0 <= k < |items| ==> items[k] == (ents[old(index) + k], binding.data[old(index) + k])
    {
      items := [];
      while true
        invariant Valid() && old(index) <= index
        invariant |items| == index - old(index)
        invariant forall k :: 0 <= k < |items| ==> items[k] == (ents[old(index) + k], binding.data[old(index) + k])
        decreases |ents| - index
      {
        var x := Next();
        if x.None? {
          return;
        }
        items := items + [x.value];
      }
    }
  }

  /** `Iter::iter` on a view: a walk over the pool's dense arrays from position 0. */
  method Iter<V>(pool: ComponentPool<V>) returns (it: SingleIter<V>)
    requires pool.Valid()
    ensures fresh(it) && it.Valid() && it.index == 0
    ensures it.ents == pool.Entities() && it.binding == IntoParts(pool).1
  {
    var (ents, binding) := IntoParts(pool);
    it := new SingleIter(ents, binding, 0);
  }

  /** Iterating a pool yields exactly its components, in dense order. */
  method IterAll<V>(pool: ComponentPool<V>) returns (items: seq<V>)
    requires pool.Valid()
    ensures items == pool.AsSlice()
  {
    var it := Iter(pool);
    items := it.Collect();
  }

  /** Iterating with `.entities()` pairs each component with its owner, in dense order. */
  method IterAllWithEntities<V>(pool: ComponentPool<V>) returns (items: seq<(Entity, V)>)
    requires pool.Valid()
    ensures |items| == |pool.AsSlice()|
    ensures forall k :: 0 <= k < |items| ==> items[k] == (pool.Entities()[k], pool.AsSlice()[k])
  {
    var it := Iter(pool);
    var withEnts := it.Entities();
    items := withEnts.Collect();
  }
}
