/** Userspace shadow of a kernel hash map: incremental replacement with deferred resynchronization. */
module ShadowHashMap {
  import opened BpfHashMaps

  const BATCH_SIZE: nat := 1024

  /** The key lists of a diff: what to delete, and what to write with which value. */
  ghost predicate IsDiff<K, V>(before: map<K, V>, after: map<K, V>, del: seq<K>, keys: seq<K>, values: seq<V>) {
    && IsRemoved(before, after, del)
    && IsWrite(before, after, keys, values)
  }

  ghost predicate IsRemoved<K, V>(before: map<K, V>, after: map<K, V>, del: seq<K>) {
    && (forall k :: k in del ==> k in before && k !in after)
    && (forall k :: k in before && k !in after ==> k in del)
  }

  ghost predicate IsWrite<K, V>(before: map<K, V>, after: map<K, V>, keys: seq<K>, values: seq<V>) {
    && |keys| == |values|
    && (forall i :: 0 <= i < |keys| ==> keys[i] in after && values[i] == after[keys[i]])
    && (forall k :: k in after && (k !in before || before[k] != after[k]) ==> k in keys)
    && (forall i :: 0 <= i < |keys| ==> keys[i] !in before || before[keys[i]] != values[i])
  }

  /** A state between `before` and `after`: its keys fit one of them, each value comes from one of them. */
  ghost predicate Blend<K, V>(before: map<K, V>, after: map<K, V>, m: map<K, V>) {
    && (m.Keys <= before.Keys || m.Keys <= after.Keys)
    && forall k :: k in m ==> (k in before && m[k] == before[k]) || (k in after && m[k] == after[k])
  }

  lemma {:induction false} DelsMembers<K, V>(m: map<K, V>, keys: seq<K>, k: K)
    ensures k in Dels(m, keys) <==> k in m && k !in keys
    ensures k in Dels(m, keys) ==> Dels(m, keys)[k] == m[k]
    decreases |keys|
  {
    if keys != [] {
      var n := |keys| - 1;
      DelsMembers(m, keys[..n], k);
      assert keys == keys[..n] + [keys[n]];
    }
  }

  lemma {:induction false} DelsAppend<K, V>(m: map<K, V>, a: seq<K>, b: seq<K>)
    ensures Dels(m, a + b) == Dels(Dels(m, a), b)
    decreases |b|
  {
    if b == [] {
      assert a + b == a;
    } else {
      var n := |b| - 1;
      DelsAppend(m, a, b[..n]);
      assert (a + b)[..|a + b| - 1] == a + b[..n];
    }
  }

  lemma {:induction false} PutsAppend<K, V>(m: map<K, V>, a: seq<K>, va: seq<V>, b: seq<K>, vb: seq<V>)
    requires |a| == |va| && |b| == |vb|
    ensures Puts(m, a + b, va + vb) == Puts(Puts(m, a, va), b, vb)
    decreases |b|
  {
    if b == [] {
      assert a + b == a && va + vb == va;
    } else {
      var n := |b| - 1;
      PutsAppend(m, a, va, b[..n], vb[..n]);
      assert (a + b)[..|a + b| - 1] == a + b[..n];
      assert (va + vb)[..|a + b| - 1] == va + vb[..n];
    }
  }

  /** Writing values of `after` leaves every key with its earlier value or its value in `after`. */
  lemma {:induction false} PutsValues<K, V>(m: map<K, V>, after: map<K, V>, keys: seq<K>, values: seq<V>, k: K)
    requires |keys| == |values|
    requires forall i :: 0 <= i < |keys| ==> keys[i] in after && values[i] == after[keys[i]]
    ensures k in Puts(m, keys, values) <==> k in m || k in keys
    ensures k in keys ==> Puts(m, keys, values)[k] == after[k]
    ensures k !in keys && k in m ==> Puts(m, keys, values)[k] == m[k]
    decreases |keys|
  {
    if keys != [] {
      var n := |keys| - 1;
      PutsValues(m, after, keys[..n], values[..n], k);
      assert keys == keys[..n] + [keys[n]];
    }
  }

  /** Deleting and then writing a diff turns the old state into the new one. */
  lemma DiffApplies<K, V>(before: map<K, V>, after: map<K, V>, del: seq<K>, keys: seq<K>, values: seq<V>)
    requires IsDiff(before, after, del, keys, values)
    ensures Puts(Dels(before, del), keys, values) == after
  {
    var r := Puts(Dels(before, del), keys, values);
    forall k | k in r ensures k in after && r[k] == after[k] {
      DelsMembers(before, del, k);
      PutsValues(Dels(before, del), after, keys, values, k);
    }
    forall k | k in after ensures k in r {
      DelsMembers(before, del, k);
      PutsValues(Dels(before, del), after, keys, values, k);
    }
  }

  lemma DelsBlend<K, V>(before: map<K, V>, after: map<K, V>, del: seq<K>)
    requires IsRemoved(before, after, del)
    ensures Dels(before, del).Keys <= after.Keys
    ensures Blend(before, after, Dels(before, del))
  {
    var m := Dels(before, del);
    forall k | k in m ensures k in before && k in after && m[k] == before[k] { DelsMembers(before, del, k); }
  }

  /** Writing any part of a diff on top of a blend that is inside the new key set stays a blend. */
  lemma PutsBlend<K, V>(before: map<K, V>, after: map<K, V>, m: map<K, V>, keys: seq<K>, values: seq<V>, n: nat)
    requires |keys| == |values| && n <= |keys|
    requires forall i :: 0 <= i < |keys| ==> keys[i] in after && values[i] == after[keys[i]]
    requires Blend(before, after, m) && m.Keys <= after.Keys
    ensures Blend(before, after, Puts(m, keys[..n], values[..n]))
    ensures Puts(m, keys[..n], values[..n]).Keys <= after.Keys
  {
    var r := Puts(m, keys[..n], values[..n]);
    forall k | k in r
      ensures k in after && ((k in before && r[k] == before[k]) || r[k] == after[k])
    {
      PutsValues(m, after, keys[..n], values[..n], k);
    }
  }

  lemma SubsetSize<T>(a: set<T>, b: set<T>)
    requires a <= b
    ensures |a| <= |b|
    ensures forall x :: x in b && x !in a ==> |a| < |b|
  {
    assert |b| == |a| + |b - a| by { assert a + (b - a) == b && a !! (b - a); }
    forall x | x in b && x !in a ensures |a| < |b| { assert x in b - a; }
  }

  function Peak<K, V>(before: map<K, V>, after: map<K, V>): nat {
    if |before| >= |after| then |before| else |after|
  }

  lemma BlendPeak<K, V>(before: map<K, V>, after: map<K, V>, m: map<K, V>)
    requires Blend(before, after, m)
    ensures |m| <= Peak(before, after)
  {
    if m.Keys <= before.Keys { SubsetSize(m.Keys, before.Keys); } else { SubsetSize(m.Keys, after.Keys); }
  }

  class BpfShadowHashMap<K(==), V(==)> {
    var snapshot: map<K, V>
    const bpfMap: BpfHashMap<K, V>
    var resyncRequired: bool

    ghost predicate Valid()
      reads this, bpfMap
    {
      !resyncRequired ==> bpfMap.content == snapshot
    }

    constructor (max: nat)
      ensures Valid() && fresh(bpfMap) && bpfMap.capacity == max
      ensures snapshot == map[] && bpfMap.content == map[] && !resyncRequired
    {
      snapshot := map[];
      bpfMap := new BpfHashMap<K, V>(max);
      resyncRequired := false;
    }

    /** Replaces the kernel state. `cause` is the system call that failed, for the specification only. */
    method Replace(newState: map<K, V>) returns (ok: bool, ghost cause: Errno)
      requires Valid()
      modifies this, bpfMap
      ensures Valid()
      ensures ok ==> bpfMap.content == snapshot == newState && !resyncRequired
      ensures !ok ==> snapshot == old(snapshot) && resyncRequired
      ensures |newState| <= bpfMap.capacity ==> cause != E2BIG
      ensures old(bpfMap.log) <= bpfMap.log
      ensures !old(resyncRequired) ==>
        forall i :: |old(bpfMap.log)| <= i < |bpfMap.log| ==>
          Blend(old(snapshot), newState, bpfMap.log[i]) && |bpfMap.log[i]| <= Peak(old(snapshot), newState)
    {
      if resyncRequired {
        ok, cause := FullResync(newState);
        return;
      }
      var del, keys, values := BuildDiff(newState);
      ok, cause := ApplyDelete(del);
      if !ok {
        forall i | |old(bpfMap.log)| <= i < |bpfMap.log|
          ensures Blend(old(snapshot), newState, bpfMap.log[i])
          ensures |bpfMap.log[i]| <= Peak(old(snapshot), newState)
        {
          assert Submap(bpfMap.log[i], snapshot);
          BlendPeak(snapshot, newState, bpfMap.log[i]);
        }
        return;
      }
      ghost var mid, midLog := bpfMap.content, bpfMap.log;
      DelsBlend(snapshot, newState, del);
      ok, cause := ApplyUpsert(keys, values, newState);
      forall i | |old(bpfMap.log)| <= i < |bpfMap.log|
        ensures Blend(old(snapshot), newState, bpfMap.log[i])
        ensures |bpfMap.log[i]| <= Peak(old(snapshot), newState)
      {
        if i < |midLog| {
          assert Submap(bpfMap.log[i], snapshot);
        } else {
          assert PartlyPut(mid, keys, values, bpfMap.log[i]);
          var n :| 0 <= n <= |keys| && bpfMap.log[i] == Puts(mid, keys[..n], values[..n]);
          PutsBlend(snapshot, newState, mid, keys, values, n);
        }
        BlendPeak(snapshot, newState, bpfMap.log[i]);
      }
      if !ok { return; }
      DiffApplies(snapshot, newState, del, keys, values);
      snapshot := newState;
    }

    method BuildDiff(newState: map<K, V>) returns (del: seq<K>, keys: seq<K>, values: seq<V>)
      ensures IsDiff(snapshot, newState, del, keys, values)
    {
      del, keys, values := [], [], [];
      var todo := snapshot.Keys;
      while todo != {}
        invariant todo <= snapshot.Keys && |keys| == |values|
        invariant forall k :: k in del <==> k in snapshot && k !in newState && k !in todo
        invariant forall i :: 0 <= i < |keys| ==> keys[i] in newState && values[i] == newState[keys[i]]
        invariant forall i :: 0 <= i < |keys| ==> keys[i] !in snapshot || snapshot[keys[i]] != values[i]
        invariant forall k :: k in snapshot && k in newState && k !in todo && snapshot[k] != newState[k] ==> k in keys
        decreases todo
      {
        var k :| k in todo;
        if k !in newState {
          del := del + [k];
        } else if newState[k] != snapshot[k] {
          keys, values := keys + [k], values + [newState[k]];
        }
        todo := todo - {k};
      }
      var rest := newState.Keys;
      while rest != {}
        invariant rest <= newState.Keys && |keys| == |values|
        invariant forall i :: 0 <= i < |keys| ==> keys[i] in newState && values[i] == newState[keys[i]]
        invariant forall i :: 0 <= i < |keys| ==> keys[i] !in snapshot || snapshot[keys[i]] != values[i]
        invariant forall k :: k in snapshot && k in newState && snapshot[k] != newState[k] ==> k in keys
        invariant forall k :: k in newState && k !in snapshot && k !in rest ==> k in keys
        decreases rest
      {
        var k :| k in rest;
        if k !in snapshot {
          keys, values := keys + [k], values + [newState[k]];
        }
        rest := rest - {k};
      }
    }

    method ApplyDelete(keys: seq<K>) returns (ok: bool, ghost cause: Errno)
      modifies this, bpfMap
      ensures snapshot == old(snapshot) && cause != E2BIG
      ensures ok ==> resyncRequired == old(resyncRequired) && bpfMap.content == Dels(old(bpfMap.content), keys)
      ensures !ok ==> resyncRequired
      ensures old(bpfMap.log) <= bpfMap.log
      ensures forall i :: |old(bpfMap.log)| <= i < |bpfMap.log| ==> Submap(bpfMap.log[i], old(bpfMap.content))
    {
      var i := 0;
      cause := Ok;
      while i < |keys|
        invariant 0 <= i <= |keys| && snapshot == old(snapshot) && resyncRequired == old(resyncRequired)
        invariant cause == Ok
        invariant bpfMap.content == Dels(old(bpfMap.content), keys[..i])
        invariant Submap(bpfMap.content, old(bpfMap.content))
        invariant old(bpfMap.log) <= bpfMap.log
        invariant forall j :: |old(bpfMap.log)| <= j < |bpfMap.log| ==> Submap(bpfMap.log[j], old(bpfMap.content))
      {
        var cnt := if |keys| - i < BATCH_SIZE then |keys| - i else BATCH_SIZE;
        var err := bpfMap.DeleteBatch(keys[i..i + cnt]);
        if err != Ok {
          resyncRequired := true;
          return false, err;
        }
        DelsAppend(old(bpfMap.content), keys[..i], keys[i..i + cnt]);
        assert keys[..i] + keys[i..i + cnt] == keys[..i + cnt];
        i := i + cnt;
      }
      assert keys[..i] == keys;
      return true, Ok;
    }

    /** `after` is the state the values are taken from. */
    method ApplyUpsert(keys: seq<K>, values: seq<V>, ghost after: map<K, V>) returns (ok: bool, ghost cause: Errno)
      requires |keys| == |values|
      requires forall i :: 0 <= i < |keys| ==> keys[i] in after && values[i] == after[keys[i]]
      requires bpfMap.content.Keys <= after.Keys
      modifies this, bpfMap
      ensures snapshot == old(snapshot)
      ensures |after| <= bpfMap.capacity ==> cause != E2BIG
      ensures ok ==> resyncRequired == old(resyncRequired)
      ensures ok ==> bpfMap.content == Puts(old(bpfMap.content), keys, values)
      ensures !ok ==> resyncRequired
      ensures old(bpfMap.log) <= bpfMap.log
      ensures forall i :: |old(bpfMap.log)| <= i < |bpfMap.log| ==>
        PartlyPut(old(bpfMap.content), keys, values, bpfMap.log[i])
    {
      var i := 0;
      ghost var start, startLog := bpfMap.content, bpfMap.log;
      while i < |keys|
        invariant 0 <= i <= |keys| && snapshot == old(snapshot) && resyncRequired == old(resyncRequired)
        invariant bpfMap.content == Puts(start, keys[..i], values[..i])
        invariant startLog <= bpfMap.log
        invariant forall j :: |startLog| <= j < |bpfMap.log| ==> PartlyPut(start, keys, values, bpfMap.log[j])
      {
        var cnt := if |keys| - i < BATCH_SIZE then |keys| - i else BATCH_SIZE;
        ghost var here := |bpfMap.log|;
        ghost var at := bpfMap.content;
        ghost var done;
        var err;
        err, done := bpfMap.UpdateBatch(keys[i..i + cnt], values[i..i + cnt]);
        forall j | here <= j < |bpfMap.log| ensures PartlyPut(start, keys, values, bpfMap.log[j]) {
          BatchIsPartial(start, keys, values, i, cnt, bpfMap.log[j]);
        }
        BatchPrefix(start, keys, values, i, cnt, done);
        if err != Ok {
          resyncRequired := true;
          if err == E2BIG {
            NoRoomMeansTooMany(bpfMap.content, bpfMap.capacity, start, keys, values, after, i + done);
          }
          return false, err;
        }
        i := i + cnt;
      }
      assert keys[..i] == keys && values[..i] == values;
      return true, Ok;
    }

    method FullResync(state: map<K, V>) returns (ok: bool, ghost cause: Errno)
      requires resyncRequired
      modifies this, bpfMap
      ensures ok ==> bpfMap.content == snapshot == state && !resyncRequired
      ensures !ok ==> snapshot == old(snapshot) && resyncRequired
      ensures |state| <= bpfMap.capacity ==> cause != E2BIG
      ensures old(bpfMap.log) <= bpfMap.log
    {
      var err := bpfMap.Clear();
      if err != Ok { return false, err; }
      var keys, values := Entries(state);
      ok, cause := ApplyUpsert(keys, values, state);
      if !ok { return; }
      assert IsDiff(map[], state, [], keys, values);
      DiffApplies(map[], state, [], keys, values);
      snapshot := state;
      resyncRequired := false;
    }
  }

  method Entries<K(==), V>(state: map<K, V>) returns (keys: seq<K>, values: seq<V>)
    ensures IsWrite(map[], state, keys, values)
  {
    keys, values := [], [];
    var rest := state.Keys;
    while rest != {}
      invariant rest <= state.Keys && |keys| == |values|
      invariant forall i :: 0 <= i < |keys| ==> keys[i] in state && values[i] == state[keys[i]]
      invariant forall k :: k in state && k !in rest ==> k in keys
      decreases rest
    {
      var k :| k in rest;
      keys, values := keys + [k], values + [state[k]];
      rest := rest - {k};
    }
  }

  lemma BatchPrefix<K, V>(start: map<K, V>, keys: seq<K>, values: seq<V>, i: nat, cnt: nat, n: nat)
    requires |keys| == |values| && i + cnt <= |keys| && n <= cnt
    ensures Puts(Puts(start, keys[..i], values[..i]), keys[i..i + cnt][..n], values[i..i + cnt][..n])
         == Puts(start, keys[..i + n], values[..i + n])
  {
    PutsAppend(start, keys[..i], values[..i], keys[i..i + n], values[i..i + n]);
    assert keys[i..i + cnt][..n] == keys[i..i + n] && values[i..i + cnt][..n] == values[i..i + n];
    assert keys[..i] + keys[i..i + n] == keys[..i + n] && values[..i] + values[i..i + n] == values[..i + n];
  }

  lemma BatchIsPartial<K, V>(start: map<K, V>, keys: seq<K>, values: seq<V>, i: nat, cnt: nat, m: map<K, V>)
    requires |keys| == |values| && i + cnt <= |keys|
    requires PartlyPut(Puts(start, keys[..i], values[..i]), keys[i..i + cnt], values[i..i + cnt], m)
    ensures PartlyPut(start, keys, values, m)
  {
    var at := Puts(start, keys[..i], values[..i]);
    var n :| 0 <= n <= cnt && m == Puts(at, keys[i..i + cnt][..n], values[i..i + cnt][..n]);
    BatchPrefix(start, keys, values, i, cnt, n);
    assert m == Puts(start, keys[..i + n], values[..i + n]);
  }

  /** A full map that rejects a key of `after` proves that `after` is larger than the capacity. */
  lemma NoRoomMeansTooMany<K, V>(m: map<K, V>, capacity: nat, start: map<K, V>, keys: seq<K>, values: seq<V>,
                                 after: map<K, V>, n: nat)
    requires |keys| == |values| && n < |keys|
    requires forall j :: 0 <= j < |keys| ==> keys[j] in after && values[j] == after[keys[j]]
    requires start.Keys <= after.Keys
    requires m == Puts(start, keys[..n], values[..n]) && keys[n] !in m && |m| >= capacity
    ensures |after| > capacity
  {
    forall k | k in m ensures k in after { PutsValues(start, after, keys[..n], values[..n], k); }
    assert keys[n] in after.Keys && keys[n] !in m.Keys;
    SubsetSize(m.Keys, after.Keys);
  }
}
