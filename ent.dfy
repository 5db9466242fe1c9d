/**
 * The generational entity allocator of `src/world/ent.rs`: a slot array of
 * `ToDense`/`Empty` entries threaded by a free list, the dense list of
 * live entities, and the reservation counter that `reserve_atomic` bumps
 * and `synchronize` turns into real allocations.
 */
module Ent {
  import opened Wrappers
  import opened Sparse

  /** `Entity`: a generational slot index. */
  datatype Entity = Entity(idx: SparseIndex)

  /** `Entry`: a live slot points into `dense`; a free slot keeps its last generation and links on. */
  datatype Entry = ToDense(dense: DenseIndex) | Empty(gen: Generation, nextFree: Option<nat>)

  /** The generation an entry records, live or free. */
  function EntryGen(e: Entry): Generation
  {
    match e
    case ToDense(d) => d.gen
    case Empty(g, _) => g
  }

  /**
   * The free list `fl` is what `first` and the `next_free` links spell out:
   * distinct in-range free slots, linked in order, and every free slot is
   * on it.
   */
  ghost predicate FreeChain(sparse: seq<Entry>, first: Option<nat>, fl: seq<nat>)
  {
    first == (if |fl| == 0 then None else Some(fl[0])) &&
    (forall i :: 0 <= i < |fl| ==> fl[i] < |sparse| && sparse[fl[i]].Empty?) &&
    (forall i {:trigger Succ(fl, i)} :: 0 <= i < |fl| ==> sparse[fl[i]].nextFree == Succ(fl, i)) &&
    (forall i, j :: 0 <= i < j < |fl| ==> fl[i] != fl[j]) &&
    (forall s :: 0 <= s < |sparse| && sparse[s].Empty? ==> s in fl)
  }

  /** The slot after position `i` of a list, if any. */
  function Succ(fl: seq<nat>, i: nat): Option<nat>
  {
    if i + 1 < |fl| then Some(fl[i + 1]) else None
  }

  /**
   * Every live slot and its dense entity name each other. The pool as
   * written loses this on the first `dealloc` of a non-last entity; the
   * swap-removing `dealloc` keeps it.
   */
  ghost predicate Linked(sparse: seq<Entry>, dense: seq<Entity>)
  {
    (forall s :: 0 <= s < |sparse| && sparse[s].ToDense? ==>
      sparse[s].dense.raw < |dense| && dense[sparse[s].dense.raw] == Entity(SparseIndex(s, sparse[s].dense.gen))) &&
    (forall k :: 0 <= k < |dense| ==>
      dense[k].idx.raw < |sparse| && sparse[dense[k].idx.raw] == ToDense(DenseIndex(k, dense[k].idx.gen)))
  }

  /** The slot of `ent` is live with `ent`'s generation, as `dealloc` checks it. */
  predicate Issued(sparse: seq<Entry>, ent: Entity)
  {
    ent.idx.raw < |sparse| && sparse[ent.idx.raw].ToDense? && sparse[ent.idx.raw].dense.gen == ent.idx.gen
  }

  /**
   * The entity the `k`-th of a run of `alloc`s hands out (counting from 0):
   * the free slots in free-list order, each one generation on, then fresh
   * slots past the end at the initial generation.
   */
  ghost function NextAlloc(sparse: seq<Entry>, fl: seq<nat>, k: nat): Entity
    requires forall i :: 0 <= i < |fl| ==> fl[i] < |sparse|
  {
    if k < |fl| then Entity(SparseIndex(fl[k], Increment(EntryGen(sparse[fl[k]]))))
    else Entity(SparseIndex(|sparse| + (k - |fl|), INITIAL))
  }

  /** Every slot on the list exists. */
  ghost predicate InRange(sparse: seq<Entry>, fl: seq<nat>)
  {
    forall i :: 0 <= i < |fl| ==> fl[i] < |sparse|
  }

  /** Allocating from `(sp, fl)` continues the run from `(sp0, fl0)` that is `j` allocs in. */
  ghost predicate Continues(sp: seq<Entry>, fl: seq<nat>, sp0: seq<Entry>, fl0: seq<nat>, j: nat)
    requires InRange(sp, fl) && InRange(sp0, fl0)
  {
    forall k: nat :: NextAlloc(sp, fl, k) == NextAlloc(sp0, fl0, j + k)
  }

  /** The first `nth` slots of `sparse` are free and link on; `find_nth_free` walks them. */
  predicate LinksOn(sparse: seq<Entry>, nth: nat)
  {
    nth <= |sparse| && forall i :: 0 <= i < nth ==> sparse[i].Empty? && sparse[i].nextFree.Some?
  }

  /**
   * What `find_nth_free` computes as written: it starts at the head but
   * then reads the link of slot `i` on iteration `i`, so it answers with
   * the link stored in slot `nth - 1` and panics as soon as one of the
   * first `nth` slots is live or ends the chain.
   */
  function NthFreeAsWritten(sparse: seq<Entry>, first: Option<nat>, nth: nat): (r: Outcome<nat>)
    ensures r.Panic? <==> first.None? || !LinksOn(sparse, nth)
    ensures r.Return? && nth == 0 ==> r == Return(first.value)
    ensures r.Return? && nth > 0 ==> sparse[nth - 1].Empty? && Some(r.value) == sparse[nth - 1].nextFree
  {
    if first.None? || !LinksOn(sparse, nth) then Panic
    else if nth == 0 then Return(first.value)
    else Return(sparse[nth - 1].nextFree.value)
  }

  /**
   * The liveness test of `contains` on the two vectors: the slot is live
   * and the entity at the dense position it records has `ent`'s
   * generation; that position is indexed unchecked, so one past the end
   * panics.
   */
  function LiveIn(sparse: seq<Entry>, dense: seq<Entity>, ent: Entity): (r: Outcome<bool>)
    ensures Linked(sparse, dense) ==> r == Return(Issued(sparse, ent))
    ensures r == Return(true) ==> ent.idx.raw < |sparse| && sparse[ent.idx.raw].ToDense?
  {
    if ent.idx.raw < |sparse| && sparse[ent.idx.raw].ToDense? then
      var d := sparse[ent.idx.raw].dense;
      if d.raw < |dense| then Return(dense[d.raw].idx.gen == ent.idx.gen) else Panic
    else Return(false)
  }

  /** `EntityPool`. */
  class EntityPool {
    var sparse: seq<Entry>
    var dense: seq<Entity>
    var firstFree: Option<nat>
    var nFree: nat
    /** `n_reserved`: the atomic counter, sequential here. */
    var nReserved: nat
    /** The free slots in the order the chain from `firstFree` visits them. */
    ghost var freeList: seq<nat>

    /** The invariant every operation of the pool keeps. */
    ghost predicate Valid()
      reads this
    {
      FreeChain(sparse, firstFree, freeList) && nFree == |freeList| &&
      |dense| + |freeList| == |sparse|
    }

    /** `EntityPool::default`. */
    constructor ()
      ensures Valid() && Linked(sparse, dense)
      ensures sparse == [] && dense == [] && firstFree == None && nFree == 0 && nReserved == 0
    {
      sparse := [];
      dense := [];
      firstFree := None;
      nFree := 0;
      nReserved := 0;
      freeList := [];
    }

    /** `slice` and `iter`: the live entities; with the free slots they account for every slot. */
    function Slice(): (r: seq<Entity>)
      reads this
      requires Valid()
      ensures |r| + nFree == |sparse|
    {
      dense
    }

    /**
     * `EntityPool::contains`: the slot is live and the entity at the dense
     * position it records has `ent`'s generation. The dense position is
     * indexed unchecked, so a position that `dealloc` has shifted away
     * panics.
     */
    function Contains(ent: Entity): (r: Outcome<bool>)
      reads this
      ensures r.Panic? <==> ent.idx.raw < |sparse| && sparse[ent.idx.raw].ToDense? &&
                             sparse[ent.idx.raw].dense.raw >= |dense|
      ensures ent.idx.raw >= |sparse| || sparse[ent.idx.raw].Empty? ==> r == Return(false)
      ensures r == Return(true) ==> ent.idx.raw < |sparse| && sparse[ent.idx.raw].ToDense?
    {
      LiveIn(sparse, dense, ent)
    }

    /** On a linked pool `contains` never panics and holds exactly for the live entities. */
    lemma ContainsLinked(ent: Entity)
      requires Linked(sparse, dense)
      ensures Contains(ent) == Return(ent in dense)
    {
      if ent in dense {
        var k :| 0 <= k < |dense| && dense[k] == ent;
      }
    }

    /**
     * `EntityPool::alloc`: recycles the head of the free list one
     * generation on, or pushes a fresh slot at generation 1; either way the
     * entity is appended to `dense` and is live at once.
     */
    method Alloc() returns (e: Entity)
      requires Valid()
      modifies this
      ensures Valid() && nReserved == old(nReserved)
      ensures e == NextAlloc(old(sparse), old(freeList), 0)
      ensures dense == old(dense) + [e]
      ensures old(firstFree).Some? ==>
        e.idx.raw == old(firstFree).value && e.idx.gen == EntryGen(old(sparse)[e.idx.raw]) + 1 &&
        sparse == old(sparse)[e.idx.raw := ToDense(DenseIndex(|old(dense)|, e.idx.gen))] &&
        firstFree == old(sparse)[e.idx.raw].nextFree && nFree == old(nFree) - 1 &&
        freeList == old(freeList)[1..]
      ensures old(firstFree).None? ==>
        e == Entity(SparseIndex(|old(dense)|, INITIAL)) && |old(dense)| == |old(sparse)| &&
        sparse == old(sparse) + [ToDense(DenseIndex(|old(dense)|, INITIAL))] &&
        firstFree == None && nFree == 0
      ensures Contains(e) == Return(true)
      ensures Continues(sparse, freeList, old(sparse), old(freeList), 1)
      ensures old(Linked(sparse, dense)) ==> Linked(sparse, dense)
    {
      if firstFree.Some? {
        var free := firstFree.value;
        var gen := Increment(EntryGen(sparse[free]));
        e := Entity(SparseIndex(free, gen));
        RecycleKeeps(sparse, dense, firstFree, freeList);
        firstFree := sparse[free].nextFree;
        nFree := nFree - 1;
        sparse := sparse[free := ToDense(DenseIndex(|dense|, gen))];
        dense := dense + [e];
        freeList := freeList[1..];
      } else {
        var index := |dense|;
        e := Entity(SparseIndex(index, INITIAL));
        GrowKeepsChain(sparse, dense, freeList);
        sparse := sparse + [ToDense(DenseIndex(index, INITIAL))];
        dense := dense + [e];
      }
    }

    /**
     * `EntityPool::dealloc` as written. On an empty pool `sparse.len() - 1`
     * underflows and the call panics. A slot out of range, free, or live
     * with another generation gives `false` and changes nothing. Otherwise
     * the slot becomes the free-list head keeping `ent`'s generation, and
     * the entity is taken out of `dense` by the order-preserving
     * `Vec::remove` at the position the slot records, without repointing
     * the entries of the entities behind it; a position already shifted
     * out of range panics.
     */
    method Dealloc(ent: Entity) returns (r: Outcome<bool>)
      requires Valid()
      modifies this
      ensures nReserved == old(nReserved)
      ensures |old(sparse)| == 0 ==> r == Panic
      ensures |old(sparse)| > 0 ==> (r == Return(false) <==> !Issued(old(sparse), ent))
      ensures r == Return(false) ==>
        sparse == old(sparse) && dense == old(dense) && firstFree == old(firstFree) &&
        nFree == old(nFree) && freeList == old(freeList)
      ensures r.Panic? && |old(sparse)| > 0 ==>
        Issued(old(sparse), ent) && old(sparse)[ent.idx.raw].dense.raw >= |old(dense)|
      ensures r == Return(true) ==>
        var slot, d := ent.idx.raw, old(sparse)[ent.idx.raw].dense.raw;
        d < |old(dense)| &&
        sparse == old(sparse)[slot := Empty(ent.idx.gen, old(firstFree))] &&
        dense == old(dense)[..d] + old(dense)[d + 1..] &&
        firstFree == Some(slot) && nFree == old(nFree) + 1 && freeList == [slot] + old(freeList)
      ensures r.Return? ==> Valid()
      ensures r == Return(true) ==> Contains(ent) == Return(false)
    {
      if |sparse| == 0 {
        return Panic;
      }
      var slot := ent.idx.raw;
      if slot > |sparse| - 1 {
        return Return(false);
      }
      if sparse[slot].Empty? {
        return Return(false);
      }
      var dense' := sparse[slot].dense;
      if dense'.gen != ent.idx.gen {
        return Return(false);
      }
      FreeChainPush(sparse, firstFree, freeList, slot, ent.idx.gen);
      sparse := sparse[slot := Empty(ent.idx.gen, firstFree)];
      if dense'.raw >= |dense| {
        return Panic;
      }
      dense := dense[..dense'.raw] + dense[dense'.raw + 1..];
      firstFree := Some(slot);
      nFree := nFree + 1;
      assert slot !in freeList;
      freeList := [slot] + freeList;
      r := Return(true);
    }

    /**
     * `dealloc` as evidently intended: an empty pool holds nothing to free,
     * and the entity leaves `dense` by swap-removal with the moved entity's
     * entry repointed, as the sparse set does it.
     */
    method DeallocSwap(ent: Entity) returns (r: bool)
      requires Valid() && Linked(sparse, dense)
      modifies this
      ensures Valid() && Linked(sparse, dense) && nReserved == old(nReserved)
      ensures r == (ent in old(dense))
      ensures r == Issued(old(sparse), ent)
      ensures !r ==> sparse == old(sparse) && dense == old(dense) && freeList == old(freeList)
      ensures r ==>
        freeList == [ent.idx.raw] + old(freeList) && firstFree == Some(ent.idx.raw) &&
        dense == SwapRemoved(old(dense), old(sparse)[ent.idx.raw].dense.raw)
      ensures r ==>
        var h := old(sparse)[ent.idx.raw].dense.raw;
        var cleared := old(sparse)[ent.idx.raw := Empty(ent.idx.gen, old(firstFree))];
        sparse == if h < |dense| then cleared[dense[h].idx.raw := ToDense(DenseIndex(h, dense[h].idx.gen))] else cleared
      ensures forall e :: e in dense <==> e in old(dense) && e != ent
      ensures Contains(ent) == Return(false)
    {
      if |sparse| == 0 || ent.idx.raw > |sparse| - 1 {
        LiveIsIssued(sparse, dense, ent);
        return false;
      }
      var slot := ent.idx.raw;
      if sparse[slot].Empty? || sparse[slot].dense.gen != ent.idx.gen {
        LiveIsIssued(sparse, dense, ent);
        return false;
      }
      LiveIsIssued(sparse, dense, ent);
      var h := sparse[slot].dense.raw;
      ghost var sp0, dn0 := sparse, dense;
      sparse := sparse[slot := Empty(ent.idx.gen, firstFree)];
      FreeChainPush(sp0, firstFree, freeList, slot, ent.idx.gen);
      dense := SwapRemoved(dense, h);
      if h < |dense| {
        var moved := dense[h];
        assert moved == dn0[|dn0| - 1];
        FreeChainRetag(sparse, Some(slot), [slot] + freeList, moved.idx.raw, DenseIndex(h, moved.idx.gen));
        sparse := sparse[moved.idx.raw := ToDense(DenseIndex(h, moved.idx.gen))];
      }
      firstFree := Some(slot);
      nFree := nFree + 1;
      freeList := [slot] + freeList;
      SwapUnlinked(sp0, dn0, slot, old(firstFree), sparse, dense);
      LinkedDistinct(sp0, dn0);
      SwapRemovedMembers(dn0, h);
      r := true;
    }

    /**
     * `reserve_atomic` as written. Past the free slots the `k`-th
     * reservation names fresh slot `sparse.len() + k` at generation 1, as
     * `alloc` will. Among the free slots it asks `find_nth_free` and
     * returns the slot's stored generation, not the incremented one `alloc`
     * will hand out.
     */
    method ReserveAtomic() returns (r: Outcome<Entity>)
      requires Valid()
      modifies this
      ensures nReserved == old(nReserved) + 1
      ensures sparse == old(sparse) && dense == old(dense) && firstFree == old(firstFree) &&
        nFree == old(nFree) && freeList == old(freeList)
      ensures old(nReserved) >= nFree ==>
        r == Return(Entity(SparseIndex(|sparse| + (old(nReserved) - nFree), INITIAL))) &&
        r.value == NextAlloc(sparse, freeList, old(nReserved))
      ensures old(nReserved) < nFree ==>
        match NthFreeAsWritten(sparse, firstFree, old(nReserved))
        case Panic => r == Panic
        case Return(s) => r == if s < |sparse| && sparse[s].Empty? then Return(Entity(SparseIndex(s, sparse[s].gen))) else Panic
    {
      var n := nReserved;
      nReserved := nReserved + 1;
      if n >= nFree {
        var nthPush := n - nFree;
        r := Return(Entity(SparseIndex(|sparse| + nthPush, INITIAL)));
      } else {
        var found := FindNthFree(n);
        match found
        case Panic =>
          r := Panic;
        case Return(s) =>
          if s < |sparse| && sparse[s].Empty? {
            r := Return(Entity(SparseIndex(s, sparse[s].gen)));
          } else {
            r := Panic;
          }
      }
    }

    /**
     * `reserve_atomic` as evidently intended: it names exactly the entity
     * the matching `alloc` of the next `synchronize` will hand out.
     */
    method ReserveAtomicChained() returns (e: Entity)
      requires Valid()
      modifies this
      ensures nReserved == old(nReserved) + 1
      ensures sparse == old(sparse) && dense == old(dense) && firstFree == old(firstFree) &&
        nFree == old(nFree) && freeList == old(freeList)
      ensures e == NextAlloc(sparse, freeList, old(nReserved))
    {
      var n := nReserved;
      nReserved := nReserved + 1;
      if n >= nFree {
        e := Entity(SparseIndex(|sparse| + (n - nFree), INITIAL));
      } else {
        var s := FindNthFreeChained(n);
        e := Entity(SparseIndex(s, Increment(sparse[s].gen)));
      }
    }

    /** `find_nth_free` as written: the loop reads slot `i` rather than following the chain. */
    method FindNthFree(nth: nat) returns (r: Outcome<nat>)
      ensures r == NthFreeAsWritten(sparse, firstFree, nth)
    {
      if firstFree.None? {
        return Panic;
      }
      var cur := firstFree.value;
      var i := 0;
      while i < nth
        invariant 0 <= i <= nth && LinksOn(sparse, i)
        invariant cur == if i == 0 then firstFree.value else sparse[i - 1].nextFree.value
      {
        if i < |sparse| && sparse[i].Empty? && sparse[i].nextFree.Some? {
          cur := sparse[i].nextFree.value;
        } else {
          return Panic;
        }
        i := i + 1;
      }
      r := Return(cur);
    }

    /** `find_nth_free` as evidently intended: `nth` steps along the free chain. */
    method FindNthFreeChained(nth: nat) returns (s: nat)
      requires Valid() && nth < nFree
      ensures s == freeList[nth] && s < |sparse| && sparse[s].Empty?
    {
      s := firstFree.value;
      var i := 0;
      while i < nth
        invariant 0 <= i <= nth && s == freeList[i]
      {
        assert sparse[freeList[i]].nextFree == Succ(freeList, i);
        s := sparse[s].nextFree.value;
        i := i + 1;
      }
    }

    /**
     * `EntityPool::synchronize`: clears the counter and allocates that many
     * entities, which join `dense` in reservation order.
     */
    method Synchronize()
      requires Valid()
      modifies this
      ensures Valid() && nReserved == 0
      ensures dense == old(dense) + Allocs(old(sparse), old(freeList), old(nReserved))
      ensures old(Linked(sparse, dense)) ==> Linked(sparse, dense)
      ensures old(nReserved) == 0 ==>
        sparse == old(sparse) && dense == old(dense) && freeList == old(freeList) && firstFree == old(firstFree)
    {
      var n := nReserved;
      nReserved := 0;
      ghost var sp0, fl0, dn0 := sparse, freeList, dense;
      ghost var linked := Linked(sparse, dense);
      var j := 0;
      while j < n
        invariant 0 <= j <= n && Valid() && nReserved == 0
        invariant dense == dn0 + Allocs(sp0, fl0, j)
        invariant Continues(sparse, freeList, sp0, fl0, j)
        invariant linked ==> Linked(sparse, dense)
        invariant n == 0 ==> sparse == sp0 && dense == dn0 && freeList == fl0 && firstFree == old(firstFree)
      {
        ghost var sp1, fl1 := sparse, freeList;
        var e := Alloc();
        RunStep(sp0, fl0, dn0, sp1, fl1, sparse, freeList, j, e);
        j := j + 1;
      }
    }
  }

  /**
   * The recycling branch of `alloc` on values: the head of the chain turns
   * live one generation on, the chain moves to its link, the new entity is
   * live, the run of allocations moves on one, and a linked pool stays
   * linked.
   */
  lemma RecycleKeeps(sp: seq<Entry>, dn: seq<Entity>, first: Option<nat>, fl: seq<nat>)
    requires FreeChain(sp, first, fl) && first.Some? && |dn| + |fl| == |sp|
    ensures var free := first.value;
      var e := Entity(SparseIndex(free, Increment(EntryGen(sp[free]))));
      var sp' := sp[free := ToDense(DenseIndex(|dn|, e.idx.gen))];
      free < |sp| && sp[free].Empty? && |fl| > 0 && fl[0] == free &&
      e == NextAlloc(sp, fl, 0) &&
      FreeChain(sp', sp[free].nextFree, fl[1..]) && |dn + [e]| + |fl[1..]| == |sp'| &&
      InRange(sp', fl[1..]) && InRange(sp, fl) && Continues(sp', fl[1..], sp, fl, 1) &&
      LiveIn(sp', dn + [e], e) == Return(true) &&
      (Linked(sp, dn) ==> Linked(sp', dn + [e]))
  {
    var free := first.value;
    var e := Entity(SparseIndex(free, Increment(EntryGen(sp[free]))));
    var d := DenseIndex(|dn|, e.idx.gen);
    FreeChainPop(sp, first, fl, d);
    if Linked(sp, dn) {
      LinkedAlloc(sp, dn, e);
    }
    assert (dn + [e])[|dn|] == e;
  }

  /** The fresh-slot branch of `alloc` on values, with the same guarantees. */
  lemma GrowKeepsChain(sp: seq<Entry>, dn: seq<Entity>, fl: seq<nat>)
    requires FreeChain(sp, None, fl) && |dn| + |fl| == |sp|
    ensures var e := Entity(SparseIndex(|dn|, INITIAL));
      var sp' := sp + [ToDense(DenseIndex(|dn|, INITIAL))];
      fl == [] && |dn| == |sp| && e == NextAlloc(sp, fl, 0) &&
      FreeChain(sp', None, []) && |dn + [e]| == |sp'| &&
      Continues(sp', [], sp, [], 1) &&
      LiveIn(sp', dn + [e], e) == Return(true) &&
      (Linked(sp, dn) ==> Linked(sp', dn + [e]))
  {
    var e := Entity(SparseIndex(|dn|, INITIAL));
    FreeChainGrow(sp, fl, DenseIndex(|dn|, INITIAL));
    if Linked(sp, dn) {
      LinkedAlloc(sp, dn, e);
    }
    assert (dn + [e])[|dn|] == e;
  }

  /** Recycling the head of the chain: the rest of the chain is the new free list, and the run moves on. */
  lemma FreeChainPop(sp: seq<Entry>, first: Option<nat>, fl: seq<nat>, d: DenseIndex)
    requires FreeChain(sp, first, fl) && first.Some?
    ensures |fl| > 0 && fl[0] == first.value && first.value < |sp| && sp[first.value].Empty?
    ensures var sp' := sp[first.value := ToDense(d)];
      FreeChain(sp', sp[first.value].nextFree, fl[1..]) && InRange(sp, fl) && InRange(sp', fl[1..]) &&
      (d.gen == Increment(EntryGen(sp[first.value])) ==> Continues(sp', fl[1..], sp, fl, 1))
  {
    var free := first.value;
    var sp' := sp[free := ToDense(d)];
    var fl' := fl[1..];
    assert sp[free].nextFree == Succ(fl, 0);
    forall i | 0 <= i < |fl'|
      ensures fl'[i] == fl[i + 1] && fl'[i] != free && fl'[i] < |sp'| && sp'[fl'[i]] == sp[fl[i + 1]]
      ensures sp'[fl'[i]].Empty? && sp'[fl'[i]].nextFree == Succ(fl', i)
    {
      assert fl[0] != fl[i + 1];
      assert sp[fl[i + 1]].nextFree == Succ(fl, i + 1);
    }
    forall s | 0 <= s < |sp'| && sp'[s].Empty?
      ensures s in fl'
    {
      assert s in fl && s != free;
      var i :| 0 <= i < |fl| && fl[i] == s;
      assert fl'[i - 1] == s;
    }
  }

  /** Allocating past the end when the chain is empty. */
  lemma FreeChainGrow(sp: seq<Entry>, fl: seq<nat>, d: DenseIndex)
    requires FreeChain(sp, None, fl)
    ensures fl == [] && FreeChain(sp + [ToDense(d)], None, [])
    ensures d.gen == INITIAL && d.raw == |sp| ==> Continues(sp + [ToDense(d)], [], sp, [], 1)
  {
  }

  /** One more `alloc` of a run: the entity it hands out is the run's next, and the run moves on. */
  lemma RunStep(sp0: seq<Entry>, fl0: seq<nat>, dn0: seq<Entity>, sp1: seq<Entry>, fl1: seq<nat>,
                sp2: seq<Entry>, fl2: seq<nat>, j: nat, e: Entity)
    requires InRange(sp0, fl0) && InRange(sp1, fl1) && InRange(sp2, fl2)
    requires Continues(sp1, fl1, sp0, fl0, j) && Continues(sp2, fl2, sp1, fl1, 1)
    requires e == NextAlloc(sp1, fl1, 0)
    ensures dn0 + Allocs(sp0, fl0, j) + [e] == dn0 + Allocs(sp0, fl0, j + 1)
    ensures Continues(sp2, fl2, sp0, fl0, j + 1)
  {
    assert NextAlloc(sp1, fl1, 0) == NextAlloc(sp0, fl0, j + 0);
    ContinuesTrans(sp2, fl2, sp1, fl1, sp0, fl0, j);
  }

  /** Two steps of a run compose. */
  lemma ContinuesTrans(sp2: seq<Entry>, fl2: seq<nat>, sp1: seq<Entry>, fl1: seq<nat>, sp0: seq<Entry>, fl0: seq<nat>, j: nat)
    requires InRange(sp2, fl2) && InRange(sp1, fl1) && InRange(sp0, fl0)
    requires Continues(sp2, fl2, sp1, fl1, 1) && Continues(sp1, fl1, sp0, fl0, j)
    ensures Continues(sp2, fl2, sp0, fl0, j + 1)
  {
    forall k: nat ensures NextAlloc(sp2, fl2, k) == NextAlloc(sp0, fl0, j + 1 + k) {
      assert NextAlloc(sp2, fl2, k) == NextAlloc(sp1, fl1, 1 + k);
      assert NextAlloc(sp1, fl1, 1 + k) == NextAlloc(sp0, fl0, j + (1 + k));
    }
  }

  /** `alloc` on a linked pool keeps it linked: the new slot is free or new, so no live entity names it. */
  lemma LinkedAlloc(sp: seq<Entry>, dn: seq<Entity>, e: Entity)
    requires Linked(sp, dn)
    requires (e.idx.raw < |sp| && sp[e.idx.raw].Empty?) || e.idx.raw == |sp|
    ensures var d := ToDense(DenseIndex(|dn|, e.idx.gen));
      Linked(if e.idx.raw < |sp| then sp[e.idx.raw := d] else sp + [d], dn + [e])
  {
  }

  /** The entities a run of `n` `alloc`s hands out, in order. */
  ghost function Allocs(sparse: seq<Entry>, fl: seq<nat>, n: nat): (r: seq<Entity>)
    requires forall i :: 0 <= i < |fl| ==> fl[i] < |sparse|
    ensures |r| == n
  {
    if n == 0 then [] else Allocs(sparse, fl, n - 1) + [NextAlloc(sparse, fl, n - 1)]
  }

  /**
   * The `k`-th entity of the run is the `k`-th alloc: recycled slots in
   * free-list order one generation on, then fresh slots at generation 1.
   */
  lemma {:induction false} AllocsAt(sparse: seq<Entry>, fl: seq<nat>, n: nat, k: nat)
    requires forall i :: 0 <= i < |fl| ==> fl[i] < |sparse|
    requires k < n
    ensures Allocs(sparse, fl, n)[k] == NextAlloc(sparse, fl, k)
    ensures k < |fl| ==> Allocs(sparse, fl, n)[k] == Entity(SparseIndex(fl[k], EntryGen(sparse[fl[k]]) + 1))
    ensures k >= |fl| ==> Allocs(sparse, fl, n)[k] == Entity(SparseIndex(|sparse| + k - |fl|, 1))
  {
    if k < n - 1 {
      AllocsAt(sparse, fl, n - 1, k);
    }
  }

  /** On a linked pool only an issued slot can hold a live entity. */
  lemma LiveIsIssued(sparse: seq<Entry>, dense: seq<Entity>, ent: Entity)
    requires Linked(sparse, dense)
    ensures ent in dense ==>
      Issued(sparse, ent) && sparse[ent.idx.raw].dense.raw < |dense| &&
      dense[sparse[ent.idx.raw].dense.raw] == ent
    ensures Issued(sparse, ent) ==> ent in dense
  {
    if ent in dense {
      var k :| 0 <= k < |dense| && dense[k] == ent;
    }
    if Issued(sparse, ent) {
      assert dense[sparse[ent.idx.raw].dense.raw] == ent;
    }
  }

  /** One position of the pushed chain: in range, free, and linked to its successor. */
  lemma FreeChainPushAt(sp: seq<Entry>, first: Option<nat>, fl: seq<nat>, slot: nat, g: Generation, i: nat)
    requires FreeChain(sp, first, fl) && slot < |sp| && sp[slot].ToDense? && i < |fl| + 1
    ensures var sp', fl' := sp[slot := Empty(g, first)], [slot] + fl;
      fl'[i] < |sp'| && sp'[fl'[i]].Empty? && sp'[fl'[i]].nextFree == Succ(fl', i)
  {
    var sp', fl' := sp[slot := Empty(g, first)], [slot] + fl;
    if i > 0 {
      assert fl'[i] == fl[i - 1] && sp[fl[i - 1]].Empty?;
      assert sp'[fl'[i]] == sp[fl[i - 1]];
      assert Succ(fl', i) == Succ(fl, i - 1);
    } else {
      assert Succ(fl', 0) == first;
    }
  }

  /** The pushed chain stays duplicate-free and still covers every free slot. */
  lemma FreeChainPushCovers(sp: seq<Entry>, first: Option<nat>, fl: seq<nat>, slot: nat, g: Generation)
    requires FreeChain(sp, first, fl) && slot < |sp| && sp[slot].ToDense?
    ensures var sp', fl' := sp[slot := Empty(g, first)], [slot] + fl;
      (forall i, j :: 0 <= i < j < |fl'| ==> fl'[i] != fl'[j]) &&
      (forall s :: 0 <= s < |sp'| && sp'[s].Empty? ==> s in fl')
  {
    var sp', fl' := sp[slot := Empty(g, first)], [slot] + fl;
    assert slot !in fl;
    forall i, j | 0 <= i < j < |fl'| ensures fl'[i] != fl'[j] {
      if i > 0 {
        assert fl'[i] == fl[i - 1] && fl'[j] == fl[j - 1];
      }
    }
    forall s | 0 <= s < |sp'| && sp'[s].Empty?
      ensures s in fl'
    {
      if s != slot {
        assert s in fl;
      }
    }
  }

  /** Freeing a live slot pushes it as the new head of the chain. */
  lemma FreeChainPush(sp: seq<Entry>, first: Option<nat>, fl: seq<nat>, slot: nat, g: Generation)
    requires FreeChain(sp, first, fl) && slot < |sp| && sp[slot].ToDense?
    ensures FreeChain(sp[slot := Empty(g, first)], Some(slot), [slot] + fl)
  {
    var sp' := sp[slot := Empty(g, first)];
    var fl' := [slot] + fl;
    forall i | 0 <= i < |fl'|
      ensures fl'[i] < |sp'| && sp'[fl'[i]].Empty?
      ensures sp'[fl'[i]].nextFree == Succ(fl', i)
    {
      FreeChainPushAt(sp, first, fl, slot, g, i);
    }
    FreeChainPushCovers(sp, first, fl, slot, g);
  }

  /** Repointing a live slot leaves the chain alone. */
  lemma FreeChainRetag(sp: seq<Entry>, first: Option<nat>, fl: seq<nat>, s: nat, d: DenseIndex)
    requires FreeChain(sp, first, fl) && s < |sp| && sp[s].ToDense?
    ensures FreeChain(sp[s := ToDense(d)], first, fl)
  {
    assert s !in fl;
  }

  /** The entities of `dense` are pairwise distinct. */
  ghost predicate Distinct(dense: seq<Entity>)
  {
    forall i, j :: 0 <= i < j < |dense| ==> dense[i] != dense[j]
  }

  /** A linked pool lists no entity twice. */
  lemma LinkedDistinct(sparse: seq<Entry>, dense: seq<Entity>)
    requires Linked(sparse, dense)
    ensures Distinct(dense)
  {
    forall i, j | 0 <= i < j < |dense| ensures dense[i] != dense[j] {
      assert sparse[dense[i].idx.raw] == ToDense(DenseIndex(i, dense[i].idx.gen));
    }
  }

  /** Swap-removing position `h` from a list without repeats removes exactly its element. */
  lemma SwapRemovedMembers(dense: seq<Entity>, h: nat)
    requires Distinct(dense) && h < |dense|
    ensures forall e :: e in SwapRemoved(dense, h) <==> e in dense && e != dense[h]
  {
    var r := SwapRemoved(dense, h);
    forall e ensures e in r <==> e in dense && e != dense[h] {
      if e in dense && e != dense[h] {
        var k :| 0 <= k < |dense| && dense[k] == e;
        if k == |dense| - 1 {
          assert r[h] == e;
        } else {
          assert r[k] == e;
        }
      }
    }
  }

  /** The swap-removing `dealloc` keeps every live slot and its dense entity naming each other. */
  lemma SwapUnlinked(sp0: seq<Entry>, dn0: seq<Entity>, slot: nat, first: Option<nat>,
                     sp: seq<Entry>, dn: seq<Entity>)
    requires Linked(sp0, dn0) && slot < |sp0| && sp0[slot].ToDense?
    requires sp0[slot].dense.raw < |dn0|
    requires dn == SwapRemoved(dn0, sp0[slot].dense.raw)
    requires var h := sp0[slot].dense.raw;
      sp == if h < |dn| then sp0[slot := Empty(sp0[slot].dense.gen, first)][dn[h].idx.raw := ToDense(DenseIndex(h, dn[h].idx.gen))]
            else sp0[slot := Empty(sp0[slot].dense.gen, first)]
    ensures Linked(sp, dn)
  {
    var h := sp0[slot].dense.raw;
    var last := |dn0| - 1;
    assert dn0[h].idx.raw == slot;
    forall s | 0 <= s < |sp| && sp[s].ToDense?
      ensures sp[s].dense.raw < |dn| && dn[sp[s].dense.raw] == Entity(SparseIndex(s, sp[s].dense.gen))
    {
      if h < |dn| && s == dn[h].idx.raw {
      } else {
        assert s != slot && sp[s] == sp0[s];
        assert dn0[sp0[s].dense.raw].idx.raw == s;
        assert sp0[s].dense.raw != last by {
          if h < |dn| {
            assert dn[h] == dn0[last];
          }
        }
      }
    }
    forall k | 0 <= k < |dn|
      ensures dn[k].idx.raw < |sp| && sp[dn[k].idx.raw] == ToDense(DenseIndex(k, dn[k].idx.gen))
    {
      if k != h {
        assert dn[k] == dn0[k];
        assert dn0[k].idx.raw != slot;
        assert dn0[k].idx.raw != dn0[last].idx.raw;
      }
    }
  }
}
