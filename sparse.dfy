/**
 * The packed column of `src/sparse.rs`: generational indices, the
 * chunk-grown sparse array and the sparse set that keeps a sparse
 * `to_dense` map beside the dense `to_sparse` and `data` vectors.
 */
module Sparse {
  import opened Wrappers

  /** The sparse array's length is always a multiple of this. */
  const UNIT_LEN: nat := 64

  /** `Generation` wraps a `NonZeroU32`: it is never zero. */
  type Generation = g: nat | g >= 1 witness 1

  /** `Generation::INITIAL`. */
  const INITIAL: Generation := 1

  /** `Generation::increment`: the next generation of a slot. */
  function Increment(g: Generation): (r: Generation)
    ensures r > g
  {
    g + 1
  }

  /** The generation a slot reaches after `n` recycles starting from `g`. */
  function Recycled(g: Generation, n: nat): Generation
  {
    if n == 0 then g else Increment(Recycled(g, n - 1))
  }

  /**
   * Every recycle adds exactly one, so a slot's generations are strictly
   * increasing and never repeat.
   */
  lemma {:induction false} RecycledAdds(g: Generation, n: nat)
    ensures Recycled(g, n) == g + n
  {
    if n > 0 {
      RecycledAdds(g, n - 1);
    }
  }

  /** `SparseIndex`: a slot number with the generation it was handed out at. */
  datatype SparseIndex = SparseIndex(raw: nat, gen: Generation)

  /** `DenseIndex`: a position in the dense vectors with the generation stored for it. */
  datatype DenseIndex = DenseIndex(raw: nat, gen: Generation)

  /** What a sparse set holds for one slot: the live generation and the value. */
  datatype Stored<T> = Stored(gen: Generation, value: T)

  /**
   * The value a lookup with `i` finds in a slot map: present only when the
   * slot is occupied by the same generation.
   */
  function Lookup<T>(c: map<nat, Stored<T>>, i: SparseIndex): Option<T>
  {
    if i.raw in c && c[i.raw].gen == i.gen then Some(c[i.raw].value) else None
  }

  /** `Vec::swap_remove(i)` on the sequence: the last element fills the hole. */
  function SwapRemoved<X>(s: seq<X>, i: nat): (r: seq<X>)
    requires i < |s|
    ensures |r| == |s| - 1
    ensures i < |r| ==> r[i] == s[|s| - 1]
    ensures forall k :: 0 <= k < |r| && k != i ==> r[k] == s[k]
  {
    s[i := s[|s| - 1]][..|s| - 1]
  }

  /** `SparseArray`: maps a slot to an optional dense index. */
  class SparseArray {
    var data: seq<Option<DenseIndex>>

    constructor ()
      ensures data == []
    {
      data := [];
    }

    /** `SparseArray::get`: the entry of the index's slot, or `None` beyond the end. */
    function Get(sparse: SparseIndex): Option<DenseIndex>
      reads this
    {
      if sparse.raw < |data| then data[sparse.raw] else None
    }

    /** `SparseArray::set`: indexing panics beyond the end, so the slot must exist. */
    method Set(slot: nat, dense: DenseIndex)
      requires slot < |data|
      modifies this
      ensures data == old(data)[slot := Some(dense)]
    {
      data := data[slot := Some(dense)];
    }

    /** `SparseArray::remove`: takes the entry out of the slot. */
    method Remove(idx: SparseIndex) returns (r: Option<DenseIndex>)
      modifies this
      ensures r == old(Get(idx))
      ensures data == if idx.raw < |old(data)| then old(data)[idx.raw := None] else old(data)
    {
      if idx.raw < |data| {
        r := data[idx.raw];
        data := data[idx.raw := None];
      } else {
        r := None;
      }
    }

    /**
     * `SparseArray::maybe_grow`: resizes to the smallest multiple of
     * `UNIT_LEN` that covers `target`, padding with empty slots.
     */
    method MaybeGrow(target: nat) returns (grew: bool)
      modifies this
      ensures grew <==> |old(data)| <= target
      ensures !grew ==> data == old(data)
      ensures grew ==> |data| % UNIT_LEN == 0 && |data| <= target + UNIT_LEN
      ensures target < |data| && |old(data)| <= |data|
      ensures data[..|old(data)|] == old(data)
      ensures forall k :: |old(data)| <= k < |data| ==> data[k] == None
    {
      if |data| >= target + 1 {
        grew := false;
      } else {
        var nUnits := (UNIT_LEN + target) / UNIT_LEN;
        var newLen := nUnits * UNIT_LEN;
        data := data + seq(newLen - |data|, _ => None);
        grew := true;
      }
    }

    /**
     * `SparseArray::get_or_alloc_mut`: grows until the slot exists, then
     * yields its entry (the caller overwrites it through `Set`).
     */
    method GetOrAllocMut(sparse: SparseIndex) returns (r: Option<DenseIndex>)
      modifies this
      ensures sparse.raw < |data| && r == data[sparse.raw]
      ensures |old(data)| <= |data| && data[..|old(data)|] == old(data)
      ensures forall k :: |old(data)| <= k < |data| ==> data[k] == None
      ensures |old(data)| % UNIT_LEN == 0 ==> |data| % UNIT_LEN == 0
      ensures r == old(Get(sparse))
    {
      var _ := MaybeGrow(sparse.raw);
      r := data[sparse.raw];
    }
  }

  /*
   * The sparse set's invariants, stated on its three vectors so that each
   * step of an operation can be argued on values: `td` is the sparse
   * array, `ts` the dense `to_sparse` vector and `n` the length of the
   * dense `data` vector.
   */

  /** The slot `s` is occupied and its dense entry points back at it. */
  ghost predicate Backed(td: seq<Option<DenseIndex>>, ts: seq<SparseIndex>, s: nat)
  {
    s < |td| && td[s].Some? && td[s].value.raw < |ts| &&
    ts[td[s].value.raw] == SparseIndex(s, td[s].value.gen)
  }

  /**
   * The invariant every operation keeps, the generation-mismatched
   * `swap_remove` included: dense vectors in lock-step, a chunked sparse
   * array, every dense entry names an existing slot, every occupied slot
   * is backed.
   */
  ghost predicate Wf(td: seq<Option<DenseIndex>>, ts: seq<SparseIndex>, n: nat)
  {
    |ts| == n && |td| % UNIT_LEN == 0 &&
    (forall k :: 0 <= k < |ts| ==> ts[k].raw < |td|) &&
    (forall s :: 0 <= s < |td| && td[s].Some? ==> Backed(td, ts, s))
  }

  /**
   * The strong invariant: every dense element is reached from the slot it
   * names, so slots and dense positions are in bijection and nothing is
   * orphaned.
   */
  ghost predicate Bijective(td: seq<Option<DenseIndex>>, ts: seq<SparseIndex>)
  {
    forall k :: 0 <= k < |ts| ==> ts[k].raw < |td| && td[ts[k].raw] == Some(DenseIndex(k, ts[k].gen))
  }

  /** The abstract contents: occupied slot -> (stored generation, value). */
  ghost function ContentsOf<T>(td: seq<Option<DenseIndex>>, ts: seq<SparseIndex>, data: seq<T>): map<nat, Stored<T>>
    requires Wf(td, ts, |data|)
  {
    map s | 0 <= s < |td| && td[s].Some? :: Stored(td[s].value.gen, data[td[s].value.raw])
  }

  /** Padding the sparse array with empty slots changes nothing. */
  lemma GrowKeeps<T>(td: seq<Option<DenseIndex>>, td': seq<Option<DenseIndex>>, ts: seq<SparseIndex>, data: seq<T>)
    requires Wf(td, ts, |data|) && |td'| % UNIT_LEN == 0
    requires |td| <= |td'| && td'[..|td|] == td
    requires forall k :: |td| <= k < |td'| ==> td'[k] == None
    ensures Wf(td', ts, |data|)
    ensures ContentsOf(td', ts, data) == ContentsOf(td, ts, data)
    ensures Bijective(td, ts) ==> Bijective(td', ts)
  {
    forall k | 0 <= k < |td|
      ensures td'[k] == td[k]
    {
      assert td'[..|td|][k] == td'[k];
    }
  }

  /** `insert` on an occupied slot: retag it, overwrite the value it points at. */
  lemma OverwriteKeeps<T>(td: seq<Option<DenseIndex>>, ts: seq<SparseIndex>, data: seq<T>, sparse: SparseIndex, v: T)
    requires Wf(td, ts, |data|) && sparse.raw < |td| && td[sparse.raw].Some?
    ensures var d := td[sparse.raw].value;
      var td' := td[sparse.raw := Some(DenseIndex(d.raw, sparse.gen))];
      Wf(td', ts[d.raw := sparse], |data|) &&
      ContentsOf(td', ts[d.raw := sparse], data[d.raw := v])
        == ContentsOf(td, ts, data)[sparse.raw := Stored(sparse.gen, v)] &&
      (Bijective(td, ts) ==> Bijective(td', ts[d.raw := sparse]))
  {
    var d := td[sparse.raw].value;
    var td' := td[sparse.raw := Some(DenseIndex(d.raw, sparse.gen))];
    var ts' := ts[d.raw := sparse];
    assert Backed(td, ts, sparse.raw);
    forall s | 0 <= s < |td'| && td'[s].Some?
      ensures Backed(td', ts', s) && (s != sparse.raw ==> td[s].value.raw != d.raw)
    {
      if s != sparse.raw {
        assert Backed(td, ts, s);
      }
    }
    var c := ContentsOf(td, ts, data)[sparse.raw := Stored(sparse.gen, v)];
    var c' := ContentsOf(td', ts', data[d.raw := v]);
    assert c'.Keys == c.Keys;
    forall s | s in c' ensures c'[s] == c[s] {}
    if Bijective(td, ts) {
      forall k | 0 <= k < |ts'|
        ensures ts'[k].raw < |td'| && td'[ts'[k].raw] == Some(DenseIndex(k, ts'[k].gen))
      {
        if k != d.raw {
          assert ts[k].raw != sparse.raw;
        }
      }
    }
  }

  /** `insert` on an empty slot: append, and point the slot at the new position. */
  lemma AppendKeeps<T>(td: seq<Option<DenseIndex>>, ts: seq<SparseIndex>, data: seq<T>, sparse: SparseIndex, v: T)
    requires Wf(td, ts, |data|) && sparse.raw < |td| && td[sparse.raw].None?
    ensures var td' := td[sparse.raw := Some(DenseIndex(|data|, sparse.gen))];
      Wf(td', ts + [sparse], |data| + 1) &&
      ContentsOf(td', ts + [sparse], data + [v])
        == ContentsOf(td, ts, data)[sparse.raw := Stored(sparse.gen, v)] &&
      (Bijective(td, ts) ==> Bijective(td', ts + [sparse]))
  {
    var td' := td[sparse.raw := Some(DenseIndex(|data|, sparse.gen))];
    var ts' := ts + [sparse];
    forall s | 0 <= s < |td'| && td'[s].Some?
      ensures Backed(td', ts', s)
    {
      if s != sparse.raw {
        assert Backed(td, ts, s);
      }
    }
    var c := ContentsOf(td, ts, data)[sparse.raw := Stored(sparse.gen, v)];
    var c' := ContentsOf(td', ts', data + [v]);
    assert c'.Keys == c.Keys;
    forall s | s in c' ensures c'[s] == c[s] {
      if s != sparse.raw {
        assert Backed(td, ts, s);
      }
    }
  }

  /**
   * `swap_remove` takes the slot's entry out before it compares
   * generations: the set stays well formed and the slot reads as empty, but
   * when the generation differs the dense element it pointed at is left
   * behind, reached from no slot.
   */
  lemma ClearKeeps<T>(td: seq<Option<DenseIndex>>, ts: seq<SparseIndex>, data: seq<T>, slot: nat)
    requires Wf(td, ts, |data|) && slot < |td|
    ensures Wf(td[slot := None], ts, |data|)
    ensures ContentsOf(td[slot := None], ts, data) == ContentsOf(td, ts, data) - {slot}
    ensures td[slot].Some? ==> !Bijective(td[slot := None], ts)
  {
    var td' := td[slot := None];
    forall s | 0 <= s < |td'| && td'[s].Some?
      ensures Backed(td', ts, s)
    {
      assert Backed(td, ts, s);
    }
    var c := ContentsOf(td, ts, data) - {slot};
    var c' := ContentsOf(td', ts, data);
    assert c'.Keys == c.Keys;
    if td[slot].Some? {
      assert Backed(td, ts, slot);
      var k := td[slot].value.raw;
      assert td'[ts[k].raw] == None;
    }
  }

  /**
   * The sparse array after the matched branch of `swap_remove`: the slot's
   * entry is taken out and, unless the hole `h` was the last position, the
   * slot named by the element moved into the hole is pointed at it.
   */
  ghost function Refilled(td: seq<Option<DenseIndex>>, ts: seq<SparseIndex>, slot: nat): seq<Option<DenseIndex>>
    requires Wf(td, ts, |ts|) && slot < |td| && td[slot].Some?
  {
    assert Backed(td, ts, slot);
    var h := td[slot].value.raw;
    var ts' := SwapRemoved(ts, h);
    if h < |ts'| then td[slot := None][ts'[h].raw := Some(DenseIndex(h, ts'[h].gen))]
    else td[slot := None]
  }

  /** The matched branch of `swap_remove` keeps the set well formed, whatever it held. */
  lemma SwapFillWf(td: seq<Option<DenseIndex>>, ts: seq<SparseIndex>, slot: nat)
    requires Wf(td, ts, |ts|) && slot < |td| && td[slot].Some?
    ensures td[slot].value.raw < |ts|
    ensures Wf(Refilled(td, ts, slot), SwapRemoved(ts, td[slot].value.raw), |ts| - 1)
  {
    assert Backed(td, ts, slot);
    var h := td[slot].value.raw;
    var ts' := SwapRemoved(ts, h);
    var last := |ts| - 1;
    var td' := Refilled(td, ts, slot);
    forall s | 0 <= s < |td'| && td'[s].Some?
      ensures Backed(td', ts', s)
    {
      if h < |ts'| && s == ts'[h].raw {
      } else {
        assert s != slot && td'[s] == td[s];
        assert Backed(td, ts, s);
        assert td[s].value.raw != last by {
          if h < |ts'| {
            assert ts[last] == ts'[h];
          }
        }
      }
    }
  }

  /** On a bijective set the matched branch of `swap_remove` keeps it bijective. */
  lemma SwapFillBijective(td: seq<Option<DenseIndex>>, ts: seq<SparseIndex>, slot: nat)
    requires Wf(td, ts, |ts|) && Bijective(td, ts) && slot < |td| && td[slot].Some?
    ensures td[slot].value.raw < |ts|
    ensures Bijective(Refilled(td, ts, slot), SwapRemoved(ts, td[slot].value.raw))
  {
    assert Backed(td, ts, slot);
    var h := td[slot].value.raw;
    var ts' := SwapRemoved(ts, h);
    var last := |ts| - 1;
    var td' := Refilled(td, ts, slot);
    forall k | 0 <= k < |ts'|
      ensures ts'[k].raw < |td'| && td'[ts'[k].raw] == Some(DenseIndex(k, ts'[k].gen))
    {
      if k != h {
        assert ts'[k] == ts[k];
        assert ts[k].raw != slot;
        assert ts[k].raw != ts[last].raw;
      }
    }
  }

  /** On a bijective set the matched branch of `swap_remove` loses exactly the removed slot. */
  lemma SwapFillContents<T>(td: seq<Option<DenseIndex>>, ts: seq<SparseIndex>, data: seq<T>, slot: nat)
    requires Wf(td, ts, |data|) && Bijective(td, ts) && slot < |td| && td[slot].Some?
    ensures td[slot].value.raw < |ts|
    ensures Wf(Refilled(td, ts, slot), SwapRemoved(ts, td[slot].value.raw), |data| - 1)
    ensures ContentsOf(Refilled(td, ts, slot), SwapRemoved(ts, td[slot].value.raw), SwapRemoved(data, td[slot].value.raw))
      == ContentsOf(td, ts, data) - {slot}
  {
    SwapFillWf(td, ts, slot);
    var h := td[slot].value.raw;
    var ts' := SwapRemoved(ts, h);
    var last := |ts| - 1;
    var td' := Refilled(td, ts, slot);
    var data' := SwapRemoved(data, h);
    var c := ContentsOf(td, ts, data) - {slot};
    var c' := ContentsOf(td', ts', data');
    forall s ensures s in c' <==> s in c {
      if h < |ts'| && s == ts'[h].raw {
        assert ts[last] == ts'[h];
        assert td[s] == Some(DenseIndex(last, ts[last].gen));
      }
    }
    assert c'.Keys == c.Keys;
    forall s | s in c' ensures c'[s] == c[s] {
      if h < |ts'| && s == ts'[h].raw {
        assert ts[last] == ts'[h];
        assert td[s] == Some(DenseIndex(last, ts[last].gen));
      } else {
        assert Backed(td, ts, s);
        assert td[s].value.raw != last by {
          if h < |ts'| {
            assert ts[last] == ts'[h];
          }
        }
      }
    }
  }

  /** `SparseSet<T>`: values packed densely, addressed through generational slots. */
  class SparseSet<T> {
    /** Maps a slot to its dense position and generation. */
    const toDense: SparseArray
    /** Dense position -> the index stored there; index-aligned with `data`. */
    var toSparse: seq<SparseIndex>
    /** The dense, packed values. */
    var data: seq<T>

    ghost predicate Valid()
      reads this, toDense
    {
      Wf(toDense.data, toSparse, |data|)
    }

    ghost predicate Packed()
      reads this, toDense
    {
      Valid() && Bijective(toDense.data, toSparse)
    }

    ghost function Contents(): map<nat, Stored<T>>
      reads this, toDense
      requires Valid()
    {
      ContentsOf(toDense.data, toSparse, data)
    }

    constructor ()
      ensures Packed() && fresh(toDense)
      ensures toSparse == [] && data == [] && toDense.data == []
      ensures Contents() == map[]
    {
      toDense := new SparseArray();
      toSparse := [];
      data := [];
    }

    /** `SparseSet::len`; for a packed set, the number of occupied slots. */
    function Len(): (r: nat)
      reads this, toDense
      requires Valid()
      ensures r == |data| == |toSparse|
    {
      |data|
    }

    /** For a packed set, `len` is the number of occupied slots. */
    lemma LenCountsSlots()
      requires Packed()
      ensures Len() == |Contents()|
    {
      PackedLen(toDense.data, toSparse, data);
    }

    /** In a packed set every dense element reads back through the index stored beside it. */
    lemma PackedReadsBack()
      requires Packed()
      ensures forall k :: 0 <= k < |toSparse| ==> Get(toSparse[k]) == Some(data[k])
    {
      forall k | 0 <= k < |toSparse| ensures Get(toSparse[k]) == Some(data[k]) {
        assert toDense.data[toSparse[k].raw] == Some(DenseIndex(k, toSparse[k].gen));
      }
    }

    /** `SparseSet::contains`: occupied by exactly this generation. */
    function Contains(sparse: SparseIndex): (r: bool)
      reads this, toDense
      requires Valid()
      ensures r <==> sparse.raw in Contents() && Contents()[sparse.raw].gen == sparse.gen
    {
      match toDense.Get(sparse)
      case Some(dense) => dense.gen == sparse.gen
      case None => false
    }

    /** `SparseSet::get` (and `get_mut` read through): a stale generation reads as absent. */
    function Get(sparse: SparseIndex): (r: Option<T>)
      reads this, toDense
      requires Valid()
      ensures r == Lookup(Contents(), sparse)
      ensures r.Some? <==> Contains(sparse)
    {
      match toDense.Get(sparse)
      case Some(dense) => if dense.gen == sparse.gen then Some(data[dense.raw]) else None
      case None => None
    }

    /**
     * `SparseSet::parts`: the sparse array with the two dense vectors, which
     * are of equal length and into which every sparse entry points.
     */
    function Parts(): (r: (seq<Option<DenseIndex>>, seq<SparseIndex>, seq<T>))
      reads this, toDense
      requires Valid()
      ensures |r.1| == |r.2|
      ensures forall s :: 0 <= s < |r.0| && r.0[s].Some? ==> r.0[s].value.raw < |r.2|
    {
      (toDense.data, toSparse, data)
    }

    /** `*set.get_mut(i)? = v`: overwrites a present value through the reference. */
    method SetThrough(sparse: SparseIndex, v: T) returns (ok: bool)
      requires Valid()
      modifies this
      ensures Valid() && toSparse == old(toSparse) && |data| == |old(data)|
      ensures ok == old(Contains(sparse))
      ensures Contents() == if ok then old(Contents())[sparse.raw := Stored(sparse.gen, v)]
                            else old(Contents())
      ensures old(Packed()) ==> Packed()
    {
      match toDense.Get(sparse)
      case Some(dense) =>
        if dense.gen == sparse.gen {
          assert Backed(toDense.data, toSparse, sparse.raw);
          data := data[dense.raw := v];
          ok := true;
          ghost var c := old(Contents())[sparse.raw := Stored(sparse.gen, v)];
          assert Contents().Keys == c.Keys;
          forall s | s in c ensures Contents()[s] == c[s] {
            if s != sparse.raw {
              assert Backed(toDense.data, toSparse, s);
            }
          }
        } else {
          ok := false;
        }
      case None =>
        ok := false;
    }

    /**
     * `SparseSet::insert`: overwrites an occupied slot in place (returning
     * the previous value, whatever its generation) or appends a new dense
     * element and points the slot at it.
     */
    method Insert(sparse: SparseIndex, v: T) returns (r: Option<T>)
      requires Valid()
      modifies this, toDense
      ensures Valid()
      ensures r == (if sparse.raw in old(Contents()) then Some(old(Contents())[sparse.raw].value) else None)
      ensures Contents() == old(Contents())[sparse.raw := Stored(sparse.gen, v)]
      ensures |data| == |old(data)| + (if r.None? then 1 else 0)
      ensures r.None? ==> data == old(data) + [v] && toSparse == old(toSparse) + [sparse]
      ensures r.None? ==> sparse.raw < |toDense.data| && toDense.data[sparse.raw] == Some(DenseIndex(|old(data)|, sparse.gen))
      ensures Get(sparse) == Some(v)
      ensures old(Packed()) ==> Packed()
    {
      ghost var td0 := toDense.data;
      var dense := toDense.GetOrAllocMut(sparse);
      GrowKeeps(td0, toDense.data, toSparse, data);
      match dense {
        case Some(d) =>
          OverwriteKeeps(toDense.data, toSparse, data, sparse, v);
          toDense.Set(sparse.raw, DenseIndex(d.raw, sparse.gen));
          r := Some(data[d.raw]);
          data := data[d.raw := v];
          toSparse := toSparse[d.raw := sparse];
        case None =>
          AppendKeeps(toDense.data, toSparse, data, sparse, v);
          toDense.Set(sparse.raw, DenseIndex(|data|, sparse.gen));
          data := data + [v];
          toSparse := toSparse + [sparse];
          r := None;
      }
    }

    /**
     * `SparseSet::swap_remove`: takes the slot's entry out, then gives up if
     * the generation differs; otherwise moves the last dense element into
     * the hole and repoints its slot.
     */
    method SwapRemove(sparse: SparseIndex) returns (r: Option<T>)
      requires Valid()
      modifies this, toDense
      ensures Valid()
      ensures r == Lookup(old(Contents()), sparse)
      ensures |data| == |old(data)| - (if r.Some? then 1 else 0)
      ensures r.None? ==> data == old(data) && toSparse == old(toSparse)
      ensures r.None? || old(Packed()) ==> Contents() == old(Contents()) - {sparse.raw}
      ensures old(Packed()) && r.Some? ==> Packed()
      ensures r.None? && sparse.raw in old(Contents()) ==> !Packed()
      ensures sparse.raw !in old(Contents()) ==>
        r.None? && toDense.data == old(toDense.data) && data == old(data) && toSparse == old(toSparse)
    {
      ghost var td0, ts0, data0 := toDense.data, toSparse, data;
      var dense := toDense.Remove(sparse);
      if dense.None? {
        assert toDense.data == td0;
        return None;
      }
      var d := dense.value;
      ClearKeeps(td0, ts0, data0, sparse.raw);
      if d.gen != sparse.gen {
        return None;
      }
      SwapFillWf(td0, ts0, sparse.raw);
      if Bijective(td0, ts0) {
        SwapFillBijective(td0, ts0, sparse.raw);
        SwapFillContents(td0, ts0, data0, sparse.raw);
      }
      var removal := data[d.raw];
      data := SwapRemoved(data, d.raw);
      toSparse := SwapRemoved(toSparse, d.raw);
      if d.raw < |toSparse| {
        var swapped := toSparse[d.raw];
        toDense.Set(swapped.raw, DenseIndex(d.raw, swapped.gen));
      }
      r := Some(removal);
    }

    /**
     * `swap_remove` as evidently intended: a generation that does not
     * match leaves the set alone instead of clearing the occupant's entry,
     * so the set stays packed and only the named entry goes.
     */
    method SwapRemoveChecked(sparse: SparseIndex) returns (r: Option<T>)
      requires Packed()
      modifies this, toDense
      ensures Packed()
      ensures r == Lookup(old(Contents()), sparse)
      ensures Contents() == if r.Some? then old(Contents()) - {sparse.raw} else old(Contents())
      ensures !Contains(sparse)
    {
      if !Contains(sparse) {
        return None;
      }
      r := SwapRemove(sparse);
    }
  }

  /** A bijective set has exactly as many dense elements as occupied slots. */
  lemma PackedLen<T>(td: seq<Option<DenseIndex>>, ts: seq<SparseIndex>, data: seq<T>)
    requires Wf(td, ts, |data|) && Bijective(td, ts)
    ensures |ContentsOf(td, ts, data)| == |data|
  {
    var keys := ContentsOf(td, ts, data).Keys;
    forall s | s in keys ensures s in SlotsOf(ts, |ts|) {
      assert Backed(td, ts, s);
      assert ts[td[s].value.raw].raw == s;
    }
    assert keys == SlotsOf(ts, |ts|);
    SlotsOfCard(td, ts, |ts|);
  }

  /** The slots named by the first `n` dense elements. */
  ghost function SlotsOf(ts: seq<SparseIndex>, n: nat): set<nat>
    requires n <= |ts|
  {
    set k | 0 <= k < n :: ts[k].raw
  }

  /** In a bijective set, distinct dense elements name distinct slots. */
  lemma {:induction false} SlotsOfCard(td: seq<Option<DenseIndex>>, ts: seq<SparseIndex>, n: nat)
    requires Bijective(td, ts) && n <= |ts|
    ensures |SlotsOf(ts, n)| == n
  {
    if n > 0 {
      SlotsOfCard(td, ts, n - 1);
      assert SlotsOf(ts, n) == SlotsOf(ts, n - 1) + {ts[n - 1].raw};
      forall k | 0 <= k < n - 1 ensures ts[k].raw != ts[n - 1].raw {
        assert td[ts[k].raw] == Some(DenseIndex(k, ts[k].gen));
      }
    } else {
      assert SlotsOf(ts, 0) == {};
    }
  }
}
