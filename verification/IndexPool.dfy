/** Pool of reusable bucket indices with transactional allocation. */
module IndexPools {
  import opened RateBuckets

  predicate NoDup(s: seq<nat>) {
    forall i, j :: 0 <= i < j < |s| ==> s[i] != s[j]
  }

  /** The indices below `n` are split, without overlap or repetition, between the free list, the
      pending list and the live set. */
  ghost predicate Partition(n: nat, free: seq<nat>, pending: seq<nat>, live: set<nat>) {
    && NoDup(free) && NoDup(pending)
    && (forall x :: x in free ==> x < n && x !in pending && x !in live)
    && (forall x :: x in pending ==> x < n && x !in live)
    && (forall x :: x in live ==> x < n)
    && (forall x: nat :: x < n ==> x in free || x in pending || x in live)
  }

  lemma NoDupSnoc(s: seq<nat>, x: nat)
    requires NoDup(s) && x !in s
    ensures NoDup(s + [x])
  {
  }

  /** Taking the last free index leaves it pending. */
  lemma PartitionAllocate(n: nat, free: seq<nat>, pending: seq<nat>, live: set<nat>)
    requires Partition(n, free, pending, live) && free != []
    ensures Partition(n, free[..|free| - 1], pending + [free[|free| - 1]], live)
  {
    var x, rest := free[|free| - 1], free[..|free| - 1];
    assert x in free;
    NoDupSnoc(pending, x);
    assert free == rest + [x];
    forall y | y in rest ensures y < n && y !in pending + [x] && y !in live {
      assert y in free;
      var i :| 0 <= i < |rest| && rest[i] == y;
      assert free[i] != free[|free| - 1];
    }
    forall y | y in pending + [x] ensures y < n && y !in live { assert y in pending || y == x; }
    forall y: nat | y < n ensures y in rest || y in pending + [x] || y in live {
      assert y in free ==> y in rest || y == x;
    }
  }

  /** Freeing the first pending index. */
  lemma PartitionRelease(n: nat, free: seq<nat>, pending: seq<nat>, live: set<nat>)
    requires Partition(n, free, pending, live) && pending != []
    ensures Partition(n, free + [pending[0]], pending[1..], live)
  {
    var x, rest := pending[0], pending[1..];
    assert pending == [x] + rest;
    assert x in pending;
    NoDupSnoc(free, x);
    forall y | y in rest ensures y < n && y !in live && y != x {
      assert y in pending;
      var i :| 0 <= i < |rest| && rest[i] == y;
      assert pending[i + 1] == y;
    }
    forall y | y in free + [x] ensures y < n && y !in rest && y !in live {
      assert y in free || y == x;
      assert y in rest ==> y in pending;
    }
    forall y: nat | y < n ensures y in free + [x] || y in rest || y in live {
      assert y in pending ==> y in rest || y == x;
    }
  }

  class IndexPool {
    const store: BucketArray
    var free: seq<nat>

    /** Every index is free, pending or published, and no free bucket has seen a
        packet since they were last zeroed. */
    ghost predicate Consistent(pending: seq<nat>)
      reads this, store
    {
      && store.Valid()
      && Partition(|store.slots|, free, pending, LiveAt(store.history))
      && (forall b :: b in free ==> Since(store.history, b) == [])
    }

    constructor (buckets: BucketArray)
      requires buckets.Valid() && buckets.history == []
      ensures store == buckets && Consistent([])
    {
      store := buckets;
      free := seq(|buckets.slots|, i requires 0 <= i => i);
      new;
      forall x: nat | x < |store.slots| ensures x in free { assert free[x] == x; }
      assert forall b: nat :: Since(store.history, b) == [];
    }

    /** False is the empty-pool exception. */
    method Allocate() returns (ok: bool, index: nat)
      modifies this
      ensures ok <==> old(free) != []
      ensures ok ==> index == old(free)[|old(free)| - 1] && free == old(free)[..|old(free)| - 1]
      ensures !ok ==> free == old(free)
    {
      if free == [] { return false, 0; }
      index := free[|free| - 1];
      free := free[..|free| - 1];
      ok := true;
    }

    method Release(index: nat)
      requires store.Valid() && index < |store.slots| && index !in LiveAt(store.history)
      modifies this, store
      ensures store.Valid() && |store.slots| == old(|store.slots|)
      ensures free == old(free) + [index]
      ensures store.history == old(store.history) + [Reset(index)]
    {
      store.Zero(index);
      free := free + [index];
    }

    /** Returns pending indices to the pool, with datapath traffic going on all the while. */
    method ReleaseAll(pending: seq<nat>)
      requires Consistent(pending)
      modifies this, store
      ensures Consistent([])
      ensures |store.slots| == old(|store.slots|)
      ensures Quiet(old(store.history), store.history)
      ensures LiveAt(store.history) == LiveAt(old(store.history))
      ensures forall x :: x in free <==> x in old(free) || x in pending
    {
      var i := 0;
      ghost var live := LiveAt(store.history);
      while i < |pending|
        invariant 0 <= i <= |pending| && |store.slots| == old(|store.slots|)
        invariant Consistent(pending[i..])
        invariant Quiet(old(store.history), store.history) && LiveAt(store.history) == live
        invariant forall x :: x in free <==> x in old(free) || x in pending[..i]
      {
        ghost var before := store.history;
        ReleaseFirst(pending[i], pending[i..]);
        QuietOn(old(store.history), before, store.history);
        assert pending[i..][1..] == pending[i + 1..];
        assert pending[..i + 1] == pending[..i] + [pending[i]];
        i := i + 1;
      }
      assert pending[..i] == pending && pending[i..] == [];
    }

    method ReleaseFirst(index: nat, ghost pending: seq<nat>)
      requires Consistent(pending) && pending != [] && pending[0] == index
      modifies this, store
      ensures Consistent(pending[1..]) && free == old(free) + [index]
      ensures |store.slots| == old(|store.slots|) && Quiet(old(store.history), store.history)
      ensures LiveAt(store.history) == LiveAt(old(store.history))
    {
      store.Traffic();
      assert index in pending;
      PartitionRelease(|store.slots|, free, pending, LiveAt(store.history));
      Append(store.history, Reset(index));
      Release(index);
    }
  }

  class IndexPoolTransaction {
    const pool: IndexPool
    var reserved: seq<nat>
    var retired: seq<nat>

    constructor (p: IndexPool)
      ensures pool == p && reserved == [] && retired == []
    {
      pool := p;
      reserved, retired := [], [];
    }

    method Allocate() returns (ok: bool, index: nat)
      modifies this, pool
      ensures retired == old(retired)
      ensures ok <==> old(pool.free) != []
      ensures ok ==> index == old(pool.free)[|old(pool.free)| - 1]
      ensures ok ==> pool.free == old(pool.free)[..|old(pool.free)| - 1] && reserved == old(reserved) + [index]
      ensures !ok ==> pool.free == old(pool.free) && reserved == old(reserved)
    {
      ok, index := pool.Allocate();
      if ok { reserved := reserved + [index]; }
    }

    method Release(index: nat)
      modifies this
      ensures reserved == old(reserved) && retired == old(retired) + [index]
    {
      retired := retired + [index];
    }

    /** Frees what the old rules no longer use; what was reserved now belongs to the new ones. */
    method Commit()
      requires pool.Consistent(retired)
      modifies this, pool, pool.store
      ensures pool.Consistent([]) && reserved == [] && retired == []
      ensures |pool.store.slots| == old(|pool.store.slots|)
      ensures Quiet(old(pool.store.history), pool.store.history)
      ensures LiveAt(pool.store.history) == LiveAt(old(pool.store.history))
      ensures forall x :: x in pool.free <==> x in old(pool.free) || x in old(retired)
    {
      pool.ReleaseAll(retired);
      reserved, retired := [], [];
    }

    /** Gives back what was reserved; what was to be retired stays with the old rules. */
    method Rollback()
      requires pool.Consistent(reserved)
      modifies this, pool, pool.store
      ensures pool.Consistent([]) && reserved == [] && retired == []
      ensures |pool.store.slots| == old(|pool.store.slots|)
      ensures Quiet(old(pool.store.history), pool.store.history)
      ensures LiveAt(pool.store.history) == LiveAt(old(pool.store.history))
      ensures forall x :: x in pool.free <==> x in old(pool.free) || x in old(reserved)
    {
      pool.ReleaseAll(reserved);
      reserved, retired := [], [];
    }
  }
}
