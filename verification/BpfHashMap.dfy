/** A kernel hash map seen through its batch operations. Any batch may fail after an arbitrary part of
    it has taken effect. */
module BpfHashMaps {

  /** Outcome of a map system call. */
  datatype Errno = Ok | E2BIG | ENOENT | EFAULT

  function Dels<K, V>(m: map<K, V>, keys: seq<K>): map<K, V> {
    if keys == [] then m else Dels(m, keys[..|keys| - 1]) - {keys[|keys| - 1]}
  }

  function Puts<K, V>(m: map<K, V>, keys: seq<K>, values: seq<V>): map<K, V>
    requires |keys| == |values|
  {
    if keys == [] then m
    else var n := |keys| - 1;
      Puts(m, keys[..n], values[..n])[keys[n] := values[n]]
  }

  ghost predicate Submap<K, V>(a: map<K, V>, b: map<K, V>) {
    forall k :: k in a ==> k in b && a[k] == b[k]
  }

  /** `m` with the first writes of the list applied, up to some point. */
  ghost predicate PartlyPut<K, V>(m: map<K, V>, keys: seq<K>, values: seq<V>, r: map<K, V>)
    requires |keys| == |values|
  {
    exists n :: 0 <= n <= |keys| && r == Puts(m, keys[..n], values[..n])
  }

  class BpfHashMap<K(==), V(==)> {
    const capacity: nat
    var content: map<K, V>
    /** Every state the map has been in, in order. */
    ghost var log: seq<map<K, V>>

    constructor (max: nat)
      ensures capacity == max && content == map[] && log == [map[]]
    {
      capacity := max;
      content := map[];
      log := [map[]];
    }

    /** Deletes the keys in order; a missing key or a kernel fault ends the batch early. */
    method DeleteBatch(keys: seq<K>) returns (err: Errno)
      modifies this
      ensures err != E2BIG
      ensures err == Ok ==> content == Dels(old(content), keys)
      ensures old(log) <= log
      ensures forall i :: |old(log)| <= i < |log| ==> Submap(log[i], old(content))
      ensures Submap(content, old(content))
    {
      var i := 0;
      while i < |keys|
        invariant 0 <= i <= |keys|
        invariant content == Dels(old(content), keys[..i])
        invariant old(log) <= log
        invariant Submap(content, old(content))
        invariant forall j :: |old(log)| <= j < |log| ==> Submap(log[j], old(content))
      {
        var fault: bool := *;
        if fault { return EFAULT; }
        if keys[i] !in content { return ENOENT; }
        content := content - {keys[i]};
        log := log + [content];
        assert keys[..i + 1][..i] == keys[..i];
        i := i + 1;
      }
      assert keys[..i] == keys;
      return Ok;
    }

    /** Inserts or overwrites in order; a full map or a kernel fault ends the batch early. */
    method UpdateBatch(keys: seq<K>, values: seq<V>) returns (err: Errno, ghost done: nat)
      requires |keys| == |values|
      modifies this
      ensures done <= |keys| && content == Puts(old(content), keys[..done], values[..done])
      ensures err == Ok ==> done == |keys|
      ensures err == E2BIG ==> done < |keys| && keys[done] !in content && |content| >= capacity
      ensures old(log) <= log
      ensures forall i :: |old(log)| <= i < |log| ==> PartlyPut(old(content), keys, values, log[i])
    {
      var i := 0;
      assert Puts(content, keys[..0], values[..0]) == content;
      while i < |keys|
        invariant 0 <= i <= |keys|
        invariant content == Puts(old(content), keys[..i], values[..i])
        invariant old(log) <= log
        invariant forall j :: |old(log)| <= j < |log| ==> PartlyPut(old(content), keys, values, log[j])
      {
        var fault: bool := *;
        if fault { return EFAULT, i; }
        if keys[i] !in content && |content| >= capacity { return E2BIG, i; }
        content := content[keys[i] := values[i]];
        assert keys[..i + 1][..i] == keys[..i] && values[..i + 1][..i] == values[..i];
        i := i + 1;
        assert content == Puts(old(content), keys[..i], values[..i]);
        log := log + [content];
      }
      return Ok, i;
    }

    /** Removes and returns some entries. ENOENT reports that the end of the map was reached; on a
        fault the entries already removed do not reach the caller's buffer count. */
    method LookupAndDeleteBatch() returns (err: Errno, removed: map<K, V>)
      modifies this
      ensures err == Ok || err == ENOENT || err == EFAULT
      ensures Submap(removed, old(content)) && content == old(content) - removed.Keys
      ensures err == Ok ==> removed != map[]
      ensures err == ENOENT ==> content == map[]
      ensures log == old(log) + [content]
    {
      var keys: set<K> := {};
      while keys != content.Keys
        invariant keys <= content.Keys
        decreases content.Keys - keys
      {
        var enough: bool := *;
        if enough { break; }
        assert !(content.Keys <= keys);
        var k :| k in content.Keys && k !in keys;
        keys := keys + {k};
      }
      removed := map k | k in keys :: content[k];
      var fault: bool := *;
      if fault {
        err := EFAULT;
      } else if keys == content.Keys {
        err := ENOENT;
      } else if keys == {} {
        err := EFAULT;
      } else {
        err := Ok;
      }
      content := content - keys;
      log := log + [content];
      assert removed.Keys == keys;
    }

    /** Empties the map batch by batch, discarding the entries. */
    method Clear() returns (err: Errno)
      modifies this
      ensures err != E2BIG
      ensures err == Ok ==> content == map[]
      ensures Submap(content, old(content))
      ensures old(log) <= log
    {
      var remaining := true;
      while remaining
        invariant Submap(content, old(content)) && old(log) <= log
        invariant !remaining ==> content == map[]
        decreases remaining, content.Keys
      {
        var e, removed := LookupAndDeleteBatch();
        if e == ENOENT {
          remaining := false;
        } else if e != Ok {
          return e;
        }
        assert e == Ok ==> exists k :: k in removed;
      }
      return Ok;
    }
  }
}
