/** Published rules as one table over all rule slots, and the bucket bookkeeping of one update. */
module RuleTables {
  import opened Basics
  import opened IndexPools

  datatype Action = Allow | Block | RateLimit

  /** An action rule. `bucket` and `named` are meaningful for rate-limit rules only. */
  datatype Rule = Rule(action: Action, bucket: nat, named: nat)

  datatype DstKey = DstKey(ipver: nat, proto: nat, addr: seq<nat>, port: nat)

  datatype IcmpKey = IcmpKey(proto: nat, kind: nat)

  /** Everything that can hold an action rule: an entry of the destination map or of the ICMP map,
      a TCP flag filter, a default. */
  datatype Slot = DstSlot(dst: DstKey) | IcmpSlot(icmp: IcmpKey) | FlagSlot(flag: nat) | DefaultSlot(index: nat)

  type Table = map<Slot, Rule>

  const INVALID_BUCKET: nat := 0xFFFF_FFFF
  const INVALID_NAMED: nat := 255

  predicate Limits(t: Table, s: Slot) {
    s in t && t[s].action == RateLimit
  }

  /** The buckets that the rules of a table hold. */
  function Live(t: Table): set<nat> {
    set s | s in t && t[s].action == RateLimit :: t[s].bucket
  }

  /** No bucket is shared by two rules. */
  ghost predicate Unshared(t: Table) {
    forall s, u :: Limits(t, s) && Limits(t, u) && t[s].bucket == t[u].bucket ==> s == u
  }

  /** The rule of slot `s` keeps the bucket of the old rule: both limit by the same named rate. */
  predicate Keeps(t: Table, nt: Table, s: Slot) {
    Limits(t, s) && Limits(nt, s) && t[s].named == nt[s].named
  }

  /** What a half-done update has to satisfy: `t` is published, `nt` holds the new rules of the slots
      reconciled so far (`done`), `reserved` and `retired` are the transaction's lists. */
  ghost predicate InUpdate(t: Table, nt: Table, done: set<Slot>, reserved: seq<nat>, retired: seq<nat>) {
    && nt.Keys <= done
    && (forall s :: Keeps(t, nt, s) ==> nt[s].bucket == t[s].bucket)
    && (forall s :: Limits(nt, s) && !Keeps(t, nt, s) ==> nt[s].bucket in reserved)
    && (forall s :: s in done && Limits(t, s) && !Keeps(t, nt, s) ==> t[s].bucket in retired)
    && (forall b :: b in retired ==> exists s :: s in done && Limits(t, s) && !Keeps(t, nt, s) && t[s].bucket == b)
    && (forall b :: b in reserved ==> exists s :: Limits(nt, s) && !Keeps(t, nt, s) && nt[s].bucket == b)
    && NoDup(retired)
    && Unshared(nt)
  }

  /** The table once the update is published. */
  function Updated(t: Table, nt: Table, done: set<Slot>): Table {
    (t - done) + nt
  }

  /** Whether a new rule for a slot needs a bucket of its own. */
  predicate NeedsBucket(newRule: Option<Rule>, oldRule: Option<Rule>) {
    && newRule.Some? && newRule.value.action == RateLimit
    && !(oldRule.Some? && oldRule.value.action == RateLimit && oldRule.value.named == newRule.value.named)
  }

  /** Whether the old rule's bucket falls free. */
  predicate DropsBucket(newRule: Option<Rule>, oldRule: Option<Rule>) {
    && oldRule.Some? && oldRule.value.action == RateLimit
    && !(newRule.Some? && newRule.value.action == RateLimit && oldRule.value.named == newRule.value.named)
  }

  function Lookup(t: Table, s: Slot): Option<Rule> {
    if s in t then Some(t[s]) else None
  }

  function Put(nt: Table, s: Slot, r: Option<Rule>): Table {
    if r.Some? then nt[s := r.value] else nt
  }

  /** Reconciling one more slot keeps the bookkeeping in order. */
  lemma UpdateStep(t: Table, nt: Table, done: set<Slot>, reserved: seq<nat>, retired: seq<nat>,
                   s: Slot, r: Option<Rule>, reserved1: seq<nat>, retired1: seq<nat>)
    requires Unshared(t) && InUpdate(t, nt, done, reserved, retired) && s !in done
    requires forall b :: b in reserved ==> b !in Live(t)
    requires reserved1 == if NeedsBucket(r, Lookup(t, s)) then reserved + [r.value.bucket] else reserved
    requires retired1 == if DropsBucket(r, Lookup(t, s)) then retired + [t[s].bucket] else retired
    requires NeedsBucket(r, Lookup(t, s)) ==> r.value.bucket !in reserved && r.value.bucket !in Live(t)
    requires r.Some? && r.value.action == RateLimit && !NeedsBucket(r, Lookup(t, s)) ==> r.value.bucket == t[s].bucket
    ensures InUpdate(t, Put(nt, s, r), done + {s}, reserved1, retired1)
  {
    var nt1 := Put(nt, s, r);
    PutElsewhere(t, nt, s, r);
    StepRetired(t, nt, nt1, done, retired, s);
    StepReserved(t, nt, nt1, done, reserved, reserved1, s);
    StepUnshared(t, nt, nt1, reserved, s);
  }

  lemma PutElsewhere(t: Table, nt: Table, s: Slot, r: Option<Rule>)
    requires s !in nt
    ensures
      var nt1 := Put(nt, s, r);
      && (forall u :: u != s ==> (Limits(nt1, u) <==> Limits(nt, u)) && (Keeps(t, nt1, u) <==> Keeps(t, nt, u)))
      && (forall u :: u != s && u in nt ==> u in nt1 && nt1[u] == nt[u])
      && (Keeps(t, nt1, s) <==> Limits(t, s) && !DropsBucket(r, Lookup(t, s)))
      && (Limits(nt1, s) && !Keeps(t, nt1, s) <==> NeedsBucket(r, Lookup(t, s)))
  {
  }

  lemma StepRetired(t: Table, nt: Table, nt1: Table, done: set<Slot>, retired: seq<nat>, s: Slot)
    requires Unshared(t) && s !in done && NoDup(retired)
    requires forall u :: u != s ==> (Keeps(t, nt1, u) <==> Keeps(t, nt, u))
    requires forall u :: u in done && Limits(t, u) && !Keeps(t, nt, u) ==> t[u].bucket in retired
    requires forall b :: b in retired ==> exists u :: u in done && Limits(t, u) && !Keeps(t, nt, u) && t[u].bucket == b
    ensures
      var retired1 := if Limits(t, s) && !Keeps(t, nt1, s) then retired + [t[s].bucket] else retired;
      && NoDup(retired1)
      && (forall u :: u in done + {s} && Limits(t, u) && !Keeps(t, nt1, u) ==> t[u].bucket in retired1)
      && (forall b :: b in retired1 ==>
            exists u :: u in done + {s} && Limits(t, u) && !Keeps(t, nt1, u) && t[u].bucket == b)
  {
    if Limits(t, s) && !Keeps(t, nt1, s) {
      var b := t[s].bucket;
      assert b !in retired by {
        assert forall u :: u in done && Limits(t, u) ==> t[u].bucket != b;
      }
      NoDupSnoc(retired, b);
    }
    var retired1 := if Limits(t, s) && !Keeps(t, nt1, s) then retired + [t[s].bucket] else retired;
    forall b | b in retired1
      ensures exists u :: u in done + {s} && Limits(t, u) && !Keeps(t, nt1, u) && t[u].bucket == b
    {
      if b in retired {
        var u :| u in done && Limits(t, u) && !Keeps(t, nt, u) && t[u].bucket == b;
        assert u in done + {s} && Limits(t, u) && !Keeps(t, nt1, u) && t[u].bucket == b;
      } else {
        assert s in done + {s} && Limits(t, s) && !Keeps(t, nt1, s) && t[s].bucket == b;
      }
    }
  }

  lemma StepReserved(t: Table, nt: Table, nt1: Table, done: set<Slot>, reserved: seq<nat>, reserved1: seq<nat>, s: Slot)
    requires nt.Keys <= done && s !in done
    requires forall u :: u != s ==> (Limits(nt1, u) <==> Limits(nt, u)) && (Keeps(t, nt1, u) <==> Keeps(t, nt, u))
    requires forall u :: u != s && u in nt ==> u in nt1 && nt1[u] == nt[u]
    requires reserved1 == if Limits(nt1, s) && !Keeps(t, nt1, s) then reserved + [nt1[s].bucket] else reserved
    requires forall b :: b in reserved ==> exists u :: Limits(nt, u) && !Keeps(t, nt, u) && nt[u].bucket == b
    ensures forall b :: b in reserved1 ==> exists u :: Limits(nt1, u) && !Keeps(t, nt1, u) && nt1[u].bucket == b
  {
    forall b | b in reserved1 ensures exists u :: Limits(nt1, u) && !Keeps(t, nt1, u) && nt1[u].bucket == b {
      if b in reserved {
        var u :| Limits(nt, u) && !Keeps(t, nt, u) && nt[u].bucket == b;
        assert Limits(nt1, u) && !Keeps(t, nt1, u) && nt1[u].bucket == b;
      } else {
        assert Limits(nt1, s) && !Keeps(t, nt1, s) && nt1[s].bucket == b;
      }
    }
  }

  lemma StepUnshared(t: Table, nt: Table, nt1: Table, reserved: seq<nat>, s: Slot)
    requires Unshared(t) && Unshared(nt) && s !in nt
    requires forall u :: u != s ==> (Limits(nt1, u) <==> Limits(nt, u))
    requires forall u :: u != s && u in nt ==> u in nt1 && nt1[u] == nt[u]
    requires forall u :: Keeps(t, nt, u) ==> nt[u].bucket == t[u].bucket
    requires forall u :: Limits(nt, u) && !Keeps(t, nt, u) ==> nt[u].bucket in reserved
    requires forall b :: b in reserved ==> b !in Live(t)
    requires Limits(nt1, s) ==>
      (Limits(t, s) && nt1[s].bucket == t[s].bucket) || (nt1[s].bucket !in reserved && nt1[s].bucket !in Live(t))
    ensures Unshared(nt1)
  {
    forall u | Limits(nt1, u) && Limits(nt1, s) && u != s ensures nt1[u].bucket != nt1[s].bucket {
      assert nt1[u] == nt[u];
      if Keeps(t, nt, u) {
        assert t[u].bucket in Live(t);
      } else if Limits(t, s) {
        assert t[s].bucket in Live(t);
      }
    }
  }

  /** Publishing an update: the new table holds every bucket at most once, and the free list, the
      retired buckets and the new table's buckets are again all the buckets. */
  lemma PublishPartition(n: nat, free: seq<nat>, t: Table, nt: Table, done: set<Slot>,
                         reserved: seq<nat>, retired: seq<nat>)
    requires Unshared(t) && InUpdate(t, nt, done, reserved, retired)
    requires Partition(n, free, reserved, Live(t))
    ensures Unshared(Updated(t, nt, done))
    ensures Partition(n, free, retired, Live(Updated(t, nt, done)))
    ensures forall b :: b in Live(Updated(t, nt, done)) ==> b in Live(t) || b in reserved
  {
    var t1 := Updated(t, nt, done);
    assert forall s :: Limits(t1, s) <==> Limits(nt, s) || (s !in done && Limits(t, s));
    UpdatedBuckets(t, nt, done, reserved, retired);
    forall b | b in retired ensures b < n && b !in free && b in Live(t) {
      var s :| s in done && Limits(t, s) && !Keeps(t, nt, s) && t[s].bucket == b;
      assert b in Live(t);
    }
    forall x: nat | x < n ensures x in free || x in retired || x in Live(t1) {
      if x in reserved {
        var s :| Limits(nt, s) && !Keeps(t, nt, s) && nt[s].bucket == x;
        assert Limits(t1, s) && t1[s].bucket == x;
      } else if x in Live(t) {
        var s :| s in t && t[s].action == RateLimit && t[s].bucket == x;
        assert Limits(t, s);
        if s !in done || Keeps(t, nt, s) { assert Limits(t1, s) && t1[s].bucket == x; }
      }
    }
  }

  lemma UpdatedBuckets(t: Table, nt: Table, done: set<Slot>, reserved: seq<nat>, retired: seq<nat>)
    requires Unshared(t) && InUpdate(t, nt, done, reserved, retired)
    requires forall b :: b in reserved ==> b !in Live(t)
    ensures Unshared(Updated(t, nt, done))
    ensures forall b :: b in Live(Updated(t, nt, done)) ==> (b in Live(t) || b in reserved) && b !in retired
  {
    var t1 := Updated(t, nt, done);
    forall s | Limits(t1, s)
      ensures if s !in done || Keeps(t, nt, s) then Limits(t, s) && t1[s].bucket == t[s].bucket
              else t1[s].bucket in reserved
    {
    }
    forall s, u | Limits(t1, s) && Limits(t1, u) && t1[s].bucket == t1[u].bucket ensures s == u {
      OneOwner(t, nt, done, reserved, retired, s, u);
    }
    forall b | b in Live(t1) ensures (b in Live(t) || b in reserved) && b !in retired {
      var s :| s in t1 && t1[s].action == RateLimit && t1[s].bucket == b;
      assert Limits(t1, s);
      NotRetired(t, nt, done, reserved, retired, s);
    }
  }

  lemma OneOwner(t: Table, nt: Table, done: set<Slot>, reserved: seq<nat>, retired: seq<nat>, s: Slot, u: Slot)
    requires Unshared(t) && InUpdate(t, nt, done, reserved, retired)
    requires forall b :: b in reserved ==> b !in Live(t)
    requires
      var t1 := Updated(t, nt, done);
      Limits(t1, s) && Limits(t1, u) && t1[s].bucket == t1[u].bucket
    ensures s == u
  {
    var t1 := Updated(t, nt, done);
    if s in nt && u in nt {
      assert Limits(nt, s) && Limits(nt, u);
    } else {
      assert forall v :: Limits(t, v) ==> t[v].bucket in Live(t);
      assert s in nt ==> Limits(nt, s);
      assert u in nt ==> Limits(nt, u);
    }
  }

  lemma NotRetired(t: Table, nt: Table, done: set<Slot>, reserved: seq<nat>, retired: seq<nat>, s: Slot)
    requires Unshared(t) && InUpdate(t, nt, done, reserved, retired)
    requires forall b :: b in reserved ==> b !in Live(t)
    requires Limits(Updated(t, nt, done), s)
    ensures
      var b := Updated(t, nt, done)[s].bucket;
      (b in Live(t) || b in reserved) && b !in retired
  {
    var b := Updated(t, nt, done)[s].bucket;
    assert forall v :: Limits(t, v) ==> t[v].bucket in Live(t);
    if s in nt && !Keeps(t, nt, s) {
      assert Limits(nt, s) && b in reserved;
    } else {
      assert Limits(t, s) && t[s].bucket == b;
      assert forall u :: u in done && Limits(t, u) && !Keeps(t, nt, u) ==> u != s;
    }
  }

  /** Rules that keep their named rate keep their bucket; every other limiting rule gets a bucket that
      no rule held before. */
  ghost predicate Inherits(t: Table, t1: Table) {
    && (forall s :: Keeps(t, t1, s) ==> t1[s].bucket == t[s].bucket)
    && (forall s :: Limits(t1, s) && !Keeps(t, t1, s) ==> t1[s].bucket !in Live(t))
  }

  lemma UpdatedInherits(t: Table, nt: Table, done: set<Slot>, reserved: seq<nat>, retired: seq<nat>)
    requires InUpdate(t, nt, done, reserved, retired)
    requires forall b :: b in reserved ==> b !in Live(t)
    ensures Inherits(t, Updated(t, nt, done))
  {
    var t1 := Updated(t, nt, done);
    forall s | Limits(t1, s)
      ensures Keeps(t, t1, s) ==> t1[s].bucket == t[s].bucket
      ensures !Keeps(t, t1, s) ==> t1[s].bucket !in Live(t)
    {
      if s in nt { assert Limits(nt, s) && (Keeps(t, nt, s) <==> Keeps(t, t1, s)); }
    }
  }
}
