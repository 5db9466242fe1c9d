/**
 * Declared accesses to the world and the conflict detector that decides
 * whether a system's parameters, or two systems, may borrow at the same
 * time. `src/sys.rs`, `src/world/fetch.rs` and `src/world/borrow.rs` hold
 * near-identical copies of `Access` and `AccessSet`; one module models
 * them, and the members below cite the copy whose code they follow.
 */
module Access {
  import opened Wrappers

  /** `Access`: a resource or component pool, borrowed shared or exclusive. */
  datatype Access = Res(ty: nat) | ResMut(ty: nat) | Comp(ty: nat) | CompMut(ty: nat)

  /** The exclusive variants. */
  predicate IsMut(a: Access)
  {
    a.ResMut? || a.CompMut?
  }

  /** The resource family, as opposed to the component family. */
  predicate IsResource(a: Access)
  {
    a.Res? || a.ResMut?
  }

  /**
   * `Access::conflicts`, case by case as the match is written: two accesses
   * conflict exactly when they name the same type in the same family and
   * at least one of them is exclusive.
   */
  function Conflicts(a: Access, b: Access): (r: bool)
    ensures r <==> a.ty == b.ty && IsResource(a) == IsResource(b) && (IsMut(a) || IsMut(b))
  {
    match (a, b)
    case (Res(i0), ResMut(i1)) => i0 == i1
    case (ResMut(i0), Res(i1)) => i0 == i1
    case (ResMut(i0), ResMut(i1)) => i0 == i1
    case (Comp(i0), CompMut(i1)) => i0 == i1
    case (CompMut(i0), Comp(i1)) => i0 == i1
    case (CompMut(i0), CompMut(i1)) => i0 == i1
    case _ => false
  }

  /** The match is symmetric although its arms are not written that way. */
  lemma ConflictsSymmetric(a: Access, b: Access)
    ensures Conflicts(a, b) == Conflicts(b, a)
  {
  }

  /** `AccessSet`: the accesses in declaration order, repetitions allowed. */
  type AccessSet = seq<Access>

  /** `AccessSet::EMPTY` and `AccessSet::default()`. */
  const EMPTY: AccessSet := []

  /** The inner `any`: some access of `other` conflicts with `a`. */
  function AnyConflictsWith(other: AccessSet, a: Access): (r: bool)
    ensures r <==> exists j :: 0 <= j < |other| && Conflicts(other[j], a)
  {
    if |other| == 0 then false
    else Conflicts(other[0], a) || AnyConflictsWith(other[1..], a)
  }

  /**
   * `AccessSet::conflicts`: the nested `any`, testing `other[j]` against
   * `s[i]` for every cross pair.
   */
  function SetConflicts(s: AccessSet, other: AccessSet): (r: bool)
    ensures r <==> exists i, j :: 0 <= i < |s| && 0 <= j < |other| && Conflicts(other[j], s[i])
  {
    if |s| == 0 then false
    else
      var first := AnyConflictsWith(other, s[0]);
      var rest := SetConflicts(s[1..], other);
      assert rest ==> exists i, j :: 0 <= i < |s| && 0 <= j < |other| && Conflicts(other[j], s[i]) by {
        if rest {
          var i, j :| 0 <= i < |s[1..]| && 0 <= j < |other| && Conflicts(other[j], s[1..][i]);
          assert Conflicts(other[j], s[i + 1]);
        }
      }
      first || rest
  }

  /** Two systems conflict with each other whichever is asked first. */
  lemma SetConflictsSymmetric(s: AccessSet, other: AccessSet)
    ensures SetConflicts(s, other) == SetConflicts(other, s)
  {
    if SetConflicts(s, other) {
      var i, j :| 0 <= i < |s| && 0 <= j < |other| && Conflicts(other[j], s[i]);
      ConflictsSymmetric(other[j], s[i]);
      assert Conflicts(s[i], other[j]);
    }
    if SetConflicts(other, s) {
      var j, i :| 0 <= j < |other| && 0 <= i < |s| && Conflicts(s[i], other[j]);
      ConflictsSymmetric(other[j], s[i]);
      assert Conflicts(other[j], s[i]);
    }
  }

  /** The meaning of `self_conflict`: two distinct positions conflict. */
  predicate PairwiseConflict(s: AccessSet)
  {
    exists i, j :: 0 <= i < j < |s| && Conflicts(s[i], s[j])
  }

  /**
   * `self_conflict`: `false` on an empty set, otherwise the nested search
   * over `i < len - 1` and `i < j < len`.
   */
  method SelfConflict(s: AccessSet) returns (r: bool)
    ensures r <==> PairwiseConflict(s)
    ensures |s| <= 1 ==> !r
  {
    if |s| == 0 {
      return false;
    }
    var i := 0;
    while i < |s| - 1
      invariant 0 <= i <= |s| - 1
      invariant forall p, q :: 0 <= p < i && p < q < |s| ==> !Conflicts(s[p], s[q])
    {
      var j := i + 1;
      while j < |s|
        invariant i + 1 <= j <= |s|
        invariant forall q :: i < q < j ==> !Conflicts(s[i], s[q])
      {
        if Conflicts(s[i], s[j]) {
          return true;
        }
        j := j + 1;
      }
      i := i + 1;
    }
    return false;
  }

  /**
   * `merge`: `self` extended by `other`, `Ok` when the result has no
   * conflicting pair and `Err` carrying the same accesses otherwise.
   */
  method Merge(s: AccessSet, other: AccessSet) returns (r: Result<AccessSet, AccessSet>)
    ensures r.Ok? <==> !PairwiseConflict(s + other)
    ensures r.Ok? ==> r.value == s + other
    ensures r.Err? ==> r.error == s + other
  {
    var merged := s;
    merged := merged + other;
    var clash := SelfConflict(merged);
    if !clash {
      r := Ok(merged);
    } else {
      r := Err(merged);
    }
  }

  /**
   * A merged set conflicts with itself exactly when one of its halves does
   * or the two halves conflict with each other.
   */
  lemma PairwiseConflictAppend(s: AccessSet, other: AccessSet)
    ensures PairwiseConflict(s + other) <==>
      PairwiseConflict(s) || PairwiseConflict(other) || SetConflicts(s, other)
  {
    var t := s + other;
    if PairwiseConflict(t) {
      var i, j :| 0 <= i < j < |t| && Conflicts(t[i], t[j]);
      if j < |s| {
        assert Conflicts(s[i], s[j]);
      } else if i >= |s| {
        assert Conflicts(other[i - |s|], other[j - |s|]);
      } else {
        ConflictsSymmetric(s[i], other[j - |s|]);
        assert Conflicts(other[j - |s|], s[i]);
      }
    }
    if PairwiseConflict(s) {
      var i, j :| 0 <= i < j < |s| && Conflicts(s[i], s[j]);
      assert Conflicts(t[i], t[j]);
    }
    if PairwiseConflict(other) {
      var i, j :| 0 <= i < j < |other| && Conflicts(other[i], other[j]);
      assert Conflicts(t[i + |s|], t[j + |s|]);
    }
    if SetConflicts(s, other) {
      var i, j :| 0 <= i < |s| && 0 <= j < |other| && Conflicts(other[j], s[i]);
      ConflictsSymmetric(other[j], s[i]);
      assert Conflicts(t[i], t[j + |s|]);
    }
  }

  /**
   * `merge_impl` folded over a list of sets: their accesses, one set after
   * another, none dropped or merged away.
   */
  function Flatten(sets: seq<AccessSet>): (r: AccessSet)
    ensures |r| == TotalSize(sets)
  {
    if |sets| == 0 then [] else Flatten(sets[..|sets| - 1]) + sets[|sets| - 1]
  }

  /** The number of accesses the sets hold together, duplicates included. */
  function TotalSize(sets: seq<AccessSet>): nat
  {
    if |sets| == 0 then 0 else TotalSize(sets[..|sets| - 1]) + |sets[|sets| - 1]|
  }

  /** An access is in the flattened set exactly when it is in one of the sets. */
  lemma {:induction false} FlattenMembers(sets: seq<AccessSet>, a: Access)
    ensures a in Flatten(sets) <==> exists k :: 0 <= k < |sets| && a in sets[k]
    decreases |sets|
  {
    if |sets| > 0 {
      var n := |sets| - 1;
      FlattenMembers(sets[..n], a);
      if a in Flatten(sets[..n]) {
        var k :| 0 <= k < n && a in sets[..n][k];
        assert a in sets[k];
      }
      if exists k :: 0 <= k < n && a in sets[k] {
        var k :| 0 <= k < n && a in sets[k];
        assert a in sets[..n][k];
      }
    }
  }

  /** Flattening distributes over appending lists of sets. */
  lemma {:induction false} FlattenAppend(xs: seq<AccessSet>, ys: seq<AccessSet>)
    ensures Flatten(xs + ys) == Flatten(xs) + Flatten(ys)
    decreases |ys|
  {
    if |ys| == 0 {
      assert xs + ys == xs;
    } else {
      var n := |ys| - 1;
      assert (xs + ys)[..|xs + ys| - 1] == xs + ys[..n];
      assert (xs + ys)[|xs + ys| - 1] == ys[n];
      FlattenAppend(xs, ys[..n]);
      assert Flatten(ys) == Flatten(ys[..n]) + ys[n];
    }
  }

  /** A prefix of the list flattens to a prefix of the accesses. */
  lemma FlattenPrefix(sets: seq<AccessSet>, k: nat)
    requires k <= |sets|
    ensures Flatten(sets) == Flatten(sets[..k]) + Flatten(sets[k..])
  {
    assert sets == sets[..k] + sets[k..];
    FlattenAppend(sets[..k], sets[k..]);
  }

  /** A conflicting pair stays a conflicting pair when more accesses follow. */
  lemma PairwiseConflictExtends(s: AccessSet, more: AccessSet)
    requires PairwiseConflict(s)
    ensures PairwiseConflict(s + more)
  {
    var i, j :| 0 <= i < j < |s| && Conflicts(s[i], s[j]);
    assert Conflicts((s + more)[i], (s + more)[j]);
  }

  /**
   * `AccessSet::concat`: starting from the empty set, `merge` each set in
   * turn and panic (`expect`) at the first merged prefix that conflicts
   * with itself; otherwise every access in order.
   */
  method Concat(sets: seq<AccessSet>) returns (r: Outcome<AccessSet>)
    ensures r.Panic? <==> exists k :: 0 < k <= |sets| && PairwiseConflict(Flatten(sets[..k]))
    ensures r.Panic? <==> PairwiseConflict(Flatten(sets))
    ensures r.Return? ==> r.value == Flatten(sets)
  {
    var state := EMPTY;
    var n := 0;
    while n < |sets|
      invariant 0 <= n <= |sets|
      invariant state == Flatten(sets[..n])
      invariant forall k :: 0 < k <= n ==> !PairwiseConflict(Flatten(sets[..k]))
    {
      var m := Merge(state, sets[n]);
      assert sets[..n + 1][..n] == sets[..n];
      if m.Err? {
        FlattenPrefix(sets, n + 1);
        assert sets[..n + 1][..n + 1] == sets[..n + 1];
        PairwiseConflictExtends(Flatten(sets[..n + 1]), Flatten(sets[n + 1..]));
        return Panic;
      }
      state := m.value;
      n := n + 1;
    }
    assert sets[..n] == sets;
    r := Return(state);
  }

  /** The outcome `Concat` computes, as a value for the fetch rules below. */
  function ConcatOutcome(sets: seq<AccessSet>): (r: Outcome<AccessSet>)
    ensures r.Return? ==> r.value == Flatten(sets) && !PairwiseConflict(r.value)
  {
    var flat := Flatten(sets);
    if PairwiseConflict(flat) then Panic else Return(flat)
  }

  /**
   * The system `accesses()` of `src/sys.rs`: `merge_impl` of every
   * parameter's set into a default set, with no conflict check.
   */
  method SystemAccesses(params: seq<AccessSet>) returns (acc: AccessSet)
    ensures acc == Flatten(params)
  {
    acc := EMPTY;
    var n := 0;
    while n < |params|
      invariant 0 <= n <= |params|
      invariant acc == Flatten(params[..n])
    {
      assert params[..n + 1][..n] == params[..n];
      acc := acc + params[n];
      n := n + 1;
    }
    assert params[..n] == params;
  }

  /** One single access per parameter. */
  function Singles(accesses: seq<Access>): (r: seq<AccessSet>)
    ensures |r| == |accesses|
    ensures forall k :: 0 <= k < |r| ==> r[k] == [accesses[k]]
  {
    seq(|accesses|, k requires 0 <= k < |accesses| => [accesses[k]])
  }

  /**
   * With one single access per parameter, a system's set is exactly its
   * parameters' accesses in parameter order.
   */
  lemma {:induction false} SinglesFlatten(accesses: seq<Access>)
    ensures Flatten(Singles(accesses)) == accesses
    decreases |accesses|
  {
    if |accesses| > 0 {
      var n := |accesses| - 1;
      assert Singles(accesses)[..n] == Singles(accesses[..n]);
      SinglesFlatten(accesses[..n]);
      assert accesses[..n] + [accesses[n]] == accesses;
    }
  }

  /**
   * What a fetched or borrowed parameter declares: `&EntityPool`, one of
   * `Res`/`ResMut`/`Comp`/`CompMut`, or a tuple of parameters.
   */
  datatype Fetch = EntityPoolRef | Single(access: Access) | Tuple(members: seq<Fetch>)

  /**
   * `accesses()` of a fetch: nothing for `&EntityPool`, the single access
   * of a borrow, and for a tuple the `concat` of its members' sets, in
   * member order (a member's own panic comes first).
   */
  function AccessesOf(f: Fetch): (r: Outcome<AccessSet>)
    ensures r.Return? ==> !PairwiseConflict(r.value)
    decreases f
  {
    match f
    case EntityPoolRef => Return(EMPTY)
    case Single(a) => Return([a])
    case Tuple(ms) =>
      var subs := seq(|ms|, k requires 0 <= k < |ms| => AccessesOf(ms[k]));
      if exists k :: 0 <= k < |subs| && subs[k].Panic? then Panic
      else ConcatOutcome(seq(|subs|, k requires 0 <= k < |subs| => subs[k].value))
  }

  /** A tuple of single borrows declares its members' accesses in order, unless two of them conflict. */
  lemma SingleTuple(accesses: seq<Access>)
    ensures AccessesOf(Tuple(seq(|accesses|, k requires 0 <= k < |accesses| => Single(accesses[k])))) ==
      if PairwiseConflict(accesses) then Panic else Return(accesses)
  {
    var ms := seq(|accesses|, k requires 0 <= k < |accesses| => Single(accesses[k]));
    var subs := seq(|ms|, k requires 0 <= k < |ms| => AccessesOf(ms[k]));
    assert seq(|subs|, k requires 0 <= k < |subs| => subs[k].value) == Singles(accesses);
    SinglesFlatten(accesses);
  }

  /** Adding `&EntityPool` to a tuple changes neither its accesses nor whether it panics. */
  lemma EntityPoolAddsNothing(ms: seq<Fetch>)
    ensures AccessesOf(Tuple(ms + [EntityPoolRef])) == AccessesOf(Tuple(ms))
  {
    var ms' := ms + [EntityPoolRef];
    var subs := seq(|ms|, k requires 0 <= k < |ms| => AccessesOf(ms[k]));
    var subs' := seq(|ms'|, k requires 0 <= k < |ms'| => AccessesOf(ms'[k]));
    assert forall k :: 0 <= k < |ms| ==> ms'[k] == ms[k];
    assert subs'[..|ms|] == subs;
    assert subs'[|ms|] == Return(EMPTY);
    var panics := exists k :: 0 <= k < |subs| && subs[k].Panic?;
    assert panics <==> exists k :: 0 <= k < |subs'| && subs'[k].Panic? by {
      if exists k :: 0 <= k < |subs'| && subs'[k].Panic? {
        var k :| 0 <= k < |subs'| && subs'[k].Panic?;
        assert k < |subs| && subs[k].Panic?;
      }
      if panics {
        var k :| 0 <= k < |subs| && subs[k].Panic?;
        assert subs'[k].Panic?;
      }
    }
    if !panics {
      var vals := seq(|subs|, k requires 0 <= k < |subs| => subs[k].value);
      var vals' := seq(|subs'|, k requires 0 <= k < |subs'| => subs'[k].value);
      assert vals'[..|vals|] == vals;
      assert vals'[|vals|] == EMPTY;
      assert Flatten(vals') == Flatten(vals) + EMPTY == Flatten(vals);
      assert AccessesOf(Tuple(ms')) == ConcatOutcome(vals');
      assert AccessesOf(Tuple(ms)) == ConcatOutcome(vals);
    }
  }

  /** Type keys of the unit tests. */
  const A: nat := 0
  const B: nat := 1
  const C: nat := 2

  /**
   * The `confliction` unit test: `(Res<A>, ResMut<A>)` conflicts with
   * itself, `(Res<A>, Res<A>)` does not, and of three systems reading or
   * writing A, B, C only the all-readers and the one writing B clash.
   */
  lemma ConflictionExamples()
    ensures PairwiseConflict([Res(A), ResMut(A)])
    ensures !PairwiseConflict([Res(A), Res(A)])
    ensures !SetConflicts([Comp(A), CompMut(B), Res(C)], [Comp(A), Res(B), Comp(C)])
    ensures !SetConflicts([Comp(A), Res(B), Comp(C)], [Comp(A), Comp(B), Comp(C)])
    ensures SetConflicts([Comp(A), Comp(B), Comp(C)], [Comp(A), CompMut(B), Res(C)])
    ensures !SetConflicts([Res(A), ResMut(B), Comp(C)], [Res(A), Comp(B), Res(C)])
    ensures !SetConflicts([Res(A), Comp(B), Res(C)], [Res(A), Res(B), Res(C)])
    ensures SetConflicts([Res(A), Res(B), Res(C)], [Res(A), ResMut(B), Comp(C)])
  {
    assert Conflicts([Res(A), ResMut(A)][0], [Res(A), ResMut(A)][1]);
    assert Conflicts([Comp(A), CompMut(B), Res(C)][1], [Comp(A), Comp(B), Comp(C)][1]);
    assert Conflicts([Res(A), ResMut(B), Comp(C)][1], [Res(A), Res(B), Res(C)][1]);
  }

  /**
   * The derive test: a struct with fields `Res<U>`, `ResMut<I>`, `Comp<U>`,
   * `CompMut<I>` declares the same accesses as the equivalent tuple, and
   * they do not conflict.
   */
  lemma CustomBorrowAccesses()
    ensures AccessesOf(Tuple([Single(Res(0)), Single(ResMut(1)), Single(Comp(0)), Single(CompMut(1))])) ==
      Return([Res(0), ResMut(1), Comp(0), CompMut(1)])
  {
    var accesses := [Res(0), ResMut(1), Comp(0), CompMut(1)];
    assert seq(|accesses|, k requires 0 <= k < |accesses| => Single(accesses[k])) ==
      [Single(Res(0)), Single(ResMut(1)), Single(Comp(0)), Single(CompMut(1))];
    SingleTuple(accesses);
    assert !PairwiseConflict(accesses);
  }
}
