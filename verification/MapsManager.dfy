/** The manager's rule updates: shadow copies, one configuration upload, transactional buckets. */
module MapsManager {
  import opened Basics
  import opened RateBuckets
  import opened IndexPools
  import opened RuleTables
  import opened RuleRequests
  import opened ShadowHashMap
  import BpfHashMaps

  const MAX_ICMP_RULES: nat := 255 * 2
  const MAX_DST_RULES: nat := 2000
  const MAX_BUCKETS: nat :=
    MAX_ICMP_RULES * 2 + MAX_DST_RULES * 2 + MAX_TCP_FLAG_RULES * 2 + MAX_DEFAULT_RULES * 2

  datatype Family = Dst | Icmp

  datatype Outcome = Applied | ConfigUnreadable | PoolEmpty | Duplicate | TooMany | ReplaceFailed | UploadFailed

  /** The part of the single-element configuration map that rule updates touch. */
  datatype FilterCfg = FilterCfg(rules: Table, amapDst: nat, amapIcmp: nat, amapSrc: nat)

  function SlotsOf(rs: seq<Request>): set<Slot> {
    set i | 0 <= i < |rs| :: rs[i].slot
  }

  /** The table holds exactly the requested rules. */
  ghost predicate Fulfils(t: Table, rs: seq<Request>) {
    && t.Keys == SlotsOf(rs)
    && forall i :: 0 <= i < |rs| ==> rs[i].slot in t && SameLimit(t[rs[i].slot], rs[i].rule)
  }

  predicate InFamily(f: Family, s: Slot) {
    if f == Dst then s.DstSlot? else s.IcmpSlot?
  }

  function MaxRules(f: Family): nat {
    if f == Dst then MAX_DST_RULES else MAX_ICMP_RULES
  }

  lemma NoLimitsNoBuckets(t: Table)
    requires forall s :: s in t ==> t[s].action == Allow
    ensures Live(t) == {} && Unshared(t)
  {
  }

  /** Chooses the bucket of a new rule against the rule it replaces. */
  method ReconcileRatelimitBucket(newRule: Option<Rule>, cfgRule: Option<Rule>, tx: IndexPoolTransaction)
    returns (ok: bool, r: Option<Rule>)
    modifies tx, tx.pool
    ensures ok <==> !(NeedsBucket(newRule, cfgRule) && old(tx.pool.free) == [])
    ensures !ok ==> tx.pool.free == old(tx.pool.free) && tx.reserved == old(tx.reserved)
    ensures ok ==> r.Some? == newRule.Some? && (r.Some? ==> SameLimit(r.value, newRule.value))
    ensures ok && NeedsBucket(newRule, cfgRule) ==>
      && r.value.bucket == old(tx.pool.free)[|old(tx.pool.free)| - 1]
      && tx.pool.free == old(tx.pool.free)[..|old(tx.pool.free)| - 1]
      && tx.reserved == old(tx.reserved) + [r.value.bucket]
    ensures ok && !NeedsBucket(newRule, cfgRule) ==> tx.pool.free == old(tx.pool.free) && tx.reserved == old(tx.reserved)
    ensures ok && r.Some? && r.value.action == RateLimit && !NeedsBucket(newRule, cfgRule) ==>
      r.value.bucket == cfgRule.value.bucket
    ensures ok && DropsBucket(newRule, cfgRule) ==> tx.retired == old(tx.retired) + [cfgRule.value.bucket]
    ensures ok && !DropsBucket(newRule, cfgRule) ==> tx.retired == old(tx.retired)
  {
    var newRl := newRule.Some? && newRule.value.action == RateLimit;
    var oldRl := cfgRule.Some? && cfgRule.value.action == RateLimit;
    r := newRule;
    ok := true;
    if !newRl && !oldRl {
      return;
    }
    if newRl && !oldRl {
      var b;
      ok, b := tx.Allocate();
      r := Some(newRule.value.(bucket := b));
      return;
    }
    if !newRl && oldRl {
      tx.Release(cfgRule.value.bucket);
      return;
    }
    if newRule.value.named == cfgRule.value.named {
      r := Some(newRule.value.(bucket := cfgRule.value.bucket));
      return;
    }
    var b;
    ok, b := tx.Allocate();
    if !ok { return; }
    r := Some(newRule.value.(bucket := b));
    tx.Release(cfgRule.value.bucket);
  }

  /** Mid-update state: buckets add up, and the reserved ones are untouched. */
  ghost predicate Staged(tx: IndexPoolTransaction, t: Table)
    reads tx, tx.pool, tx.pool.store
  {
    && tx.pool.Consistent(tx.reserved)
    && LiveAt(tx.pool.store.history) == Live(t) && Unshared(t)
    && forall b :: b in tx.reserved ==> Since(tx.pool.store.history, b) == []
  }

  lemma FulfilsOneMore(made: Table, rs: seq<Request>, rq: Request, r: Rule)
    requires Fulfils(made, rs) && Distinct(rs) && rq.slot !in made && SameLimit(r, rq.rule)
    ensures Fulfils(made[rq.slot := r], rs + [rq]) && Distinct(rs + [rq])
  {
    SlotsOfSnoc(rs, rq);
    forall j | 0 <= j < |rs| ensures rs[j].slot != rq.slot { assert rs[j].slot in made; }
  }

  lemma SlotsOfSnoc(rs: seq<Request>, rq: Request)
    ensures SlotsOf(rs + [rq]) == SlotsOf(rs) + {rq.slot}
  {
    forall s | s in SlotsOf(rs) ensures s in SlotsOf(rs + [rq]) {
      var j :| 0 <= j < |rs| && rs[j].slot == s;
      assert (rs + [rq])[j].slot == s;
    }
    assert (rs + [rq])[|rs|].slot == rq.slot;
  }

  /** One reconciliation inside an update: the buckets still add up, and a slot not met before joins
      the reconciled ones. */
  method ReconcileSlot(tx: IndexPoolTransaction, newRule: Option<Rule>, cfgRule: Option<Rule>,
                       ghost t: Table, ghost nt: Table, ghost done: set<Slot>, ghost s: Slot)
    returns (ok: bool, r: Option<Rule>)
    requires Staged(tx, t) && cfgRule == Lookup(t, s)
    modifies tx, tx.pool
    ensures Staged(tx, t)
    ensures ok ==> r.Some? == newRule.Some? && (r.Some? ==> SameLimit(r.value, newRule.value))
    ensures ok && s !in done && InUpdate(t, nt, done, old(tx.reserved), old(tx.retired)) ==>
      InUpdate(t, Put(nt, s, r), done + {s}, tx.reserved, tx.retired)
    ensures |tx.reserved| <= old(|tx.reserved|) + if newRule.Some? then 1 else 0
    ensures !ok ==> tx.pool.free == [] && newRule.Some?
  {
    ghost var reserved, retired, free := tx.reserved, tx.retired, tx.pool.free;
    ok, r := ReconcileRatelimitBucket(newRule, cfgRule, tx);
    if ok && NeedsBucket(newRule, cfgRule) {
      PartitionAllocate(|tx.pool.store.slots|, free, reserved, Live(t));
      assert r.value.bucket in free;
    }
    if ok && s !in done && InUpdate(t, nt, done, reserved, retired) {
      UpdateStep(t, nt, done, reserved, retired, s, r, tx.reserved, tx.retired);
    }
  }

  /** The requests `rs` are reconciled and `made` holds their rules. */
  ghost predicate Reconciled(tx: IndexPoolTransaction, t: Table, nt: Table, done: set<Slot>, made: Table, rs: seq<Request>)
    reads tx, tx.pool, tx.pool.store
  {
    && Staged(tx, t)
    && InUpdate(t, nt + made, done + made.Keys, tx.reserved, tx.retired)
    && Distinct(rs) && Fulfils(made, rs)
  }

  method ReconcileOne(tx: IndexPoolTransaction, before: Table, rq: Request,
                      ghost t: Table, ghost nt: Table, ghost done: set<Slot>, made: Table, ghost rs: seq<Request>)
    returns (err: Outcome, more: Table)
    requires Reconciled(tx, t, nt, done, made, rs)
    requires rq.slot !in done && Lookup(before, rq.slot) == Lookup(t, rq.slot)
    modifies tx, tx.pool
    ensures Staged(tx, t)
    ensures err == Applied ==> Reconciled(tx, t, nt, done, more, rs + [rq])
    ensures err == Applied || err == PoolEmpty || err == Duplicate
    ensures err == PoolEmpty ==> tx.pool.free == []
    ensures err == Duplicate ==> exists j :: 0 <= j < |rs| && rs[j].slot == rq.slot
    ensures |tx.reserved| <= old(|tx.reserved|) + 1
  {
    var s := rq.slot;
    more := made;
    var ok, r := ReconcileSlot(tx, Some(rq.rule), Lookup(before, s), t, nt + made, done + made.Keys, s);
    if !ok { return PoolEmpty, more; }
    if s in made {
      return Duplicate, more;
    }
    FulfilsOneMore(made, rs, rq, r.value);
    UnionPut(nt, made, s, r.value);
    more := made[s := r.value];
    assert done + more.Keys == done + made.Keys + {s};
    return Applied, more;
  }

  /** Reconciles requests one by one against the rules in force (`before`). */
  method ReconcileRequests(tx: IndexPoolTransaction, before: Table, rs: seq<Request>,
                           ghost t: Table, ghost nt: Table, ghost done: set<Slot>)
    returns (err: Outcome, made: Table)
    requires Staged(tx, t) && InUpdate(t, nt, done, tx.reserved, tx.retired)
    requires forall i :: 0 <= i < |rs| ==> rs[i].slot !in done && Lookup(before, rs[i].slot) == Lookup(t, rs[i].slot)
    modifies tx, tx.pool
    ensures Staged(tx, t)
    ensures err == Applied || err == PoolEmpty || err == Duplicate
    ensures err == Applied <==> Distinct(rs) && err != PoolEmpty
    ensures err == Applied ==> Fulfils(made, rs)
    ensures err == Applied ==> InUpdate(t, nt + made, done + made.Keys, tx.reserved, tx.retired)
    ensures |tx.reserved| <= old(|tx.reserved|) + |rs|
    ensures err == PoolEmpty ==> tx.pool.free == []
  {
    made := map[];
    var i := 0;
    assert nt + made == nt && done + made.Keys == done;
    while i < |rs|
      invariant 0 <= i <= |rs|
      invariant Reconciled(tx, t, nt, done, made, rs[..i])
      invariant |tx.reserved| <= old(|tx.reserved|) + i
    {
      err, made := ReconcileOne(tx, before, rs[i], t, nt, done, made, rs[..i]);
      NotDistinct(rs, i);
      if err != Applied { return; }
      i := i + 1;
    }
    assert rs[..i] == rs;
    return Applied, made;
  }

  lemma NotDistinct(rs: seq<Request>, i: nat)
    requires i < |rs|
    ensures (exists j :: 0 <= j < i && rs[..i][j].slot == rs[i].slot) ==> !Distinct(rs)
    ensures rs[..i] + [rs[i]] == rs[..i + 1]
  {
  }

  lemma UnionPut(nt: Table, made: Table, s: Slot, r: Rule)
    ensures (nt + made)[s := r] == nt + made[s := r]
  {
  }

  /** Releases the buckets of rules that have no successor. */
  method ReleaseRemoved(tx: IndexPoolTransaction, active: Table, made: Table, ghost t: Table)
    requires Staged(tx, t) && InUpdate(t, made, made.Keys, tx.reserved, tx.retired)
    requires forall s :: s in active ==> Lookup(t, s) == Some(active[s])
    modifies tx, tx.pool
    ensures Staged(tx, t) && InUpdate(t, made, made.Keys + active.Keys, tx.reserved, tx.retired)
    ensures |tx.reserved| <= old(|tx.reserved|)
  {
    var todo := active.Keys;
    ghost var done := made.Keys;
    while todo != {}
      invariant todo <= active.Keys && made.Keys <= done
      invariant forall s :: s in todo && s !in made ==> s !in done
      invariant done + todo == made.Keys + active.Keys
      invariant Staged(tx, t) && InUpdate(t, made, done, tx.reserved, tx.retired)
      invariant |tx.reserved| <= old(|tx.reserved|)
      decreases todo
    {
      var s :| s in todo;
      if s !in made {
        var ok, r := ReconcileSlot(tx, None, Some(active[s]), t, made, done, s);
        done := done + {s};
      }
      todo := todo - {s};
    }
  }

  /** The rules a family has in the published table `t` are those of `active`. */
  ghost predicate Covers(t: Table, active: Table, f: Family) {
    && (forall s :: s in active ==> InFamily(f, s))
    && (forall s :: InFamily(f, s) ==> Lookup(active, s) == Lookup(t, s))
  }

  lemma FamilyCovers(dst: Table, icmp: Table, rules: Table, f: Family)
    requires forall s :: s in dst ==> InFamily(Dst, s)
    requires forall s :: s in icmp ==> InFamily(Icmp, s)
    requires forall s :: s in rules ==> s.FlagSlot? || s.DefaultSlot?
    ensures Covers(dst + icmp + rules, if f == Dst then dst else icmp, f)
  {
  }

  function OtherFamily(f: Family): Family { if f == Dst then Icmp else Dst }

  /** Replacing one family (`mine`) and some defaults, said map by map and said as an update. */
  lemma SwitchedTable(mine: Table, other: Table, rules: Table, f: Family, made: Table, defs: Table)
    requires forall s :: s in mine || s in made ==> InFamily(f, s)
    requires forall s :: s in other ==> InFamily(OtherFamily(f), s)
    requires forall s :: s in rules ==> s.FlagSlot? || s.DefaultSlot?
    requires defs.Keys <= rules.Keys
    ensures made + other + (rules + defs)
         == Updated(mine + other + rules, made + defs, made.Keys + mine.Keys + defs.Keys)
  {
    forall s
      ensures Lookup(made + other + (rules + defs), s)
           == Lookup(Updated(mine + other + rules, made + defs, made.Keys + mine.Keys + defs.Keys), s)
    {
      SwitchedSlot(mine, other, rules, f, made, defs, s);
    }
    SameTable(made + other + (rules + defs),
              Updated(mine + other + rules, made + defs, made.Keys + mine.Keys + defs.Keys));
  }

  lemma SwitchedSlot(mine: Table, other: Table, rules: Table, f: Family, made: Table, defs: Table, s: Slot)
    requires s in mine || s in made ==> InFamily(f, s)
    requires s in other ==> InFamily(OtherFamily(f), s)
    requires s in rules ==> s.FlagSlot? || s.DefaultSlot?
    requires s in defs ==> s in rules
    ensures Lookup(made + other + (rules + defs), s)
         == Lookup(Updated(mine + other + rules, made + defs, made.Keys + mine.Keys + defs.Keys), s)
  {
  }

  /** Maps of different families can be joined in any order. */
  lemma JoinCommutes(a: Table, b: Table, rules: Table, f: Family)
    requires forall s :: s in a ==> InFamily(f, s)
    requires forall s :: s in b ==> InFamily(OtherFamily(f), s)
    ensures a + b + rules == b + a + rules
  {
    assert a + b == b + a;
  }

  lemma JoinUpdate(base: Table, rules: Table, d: Table)
    ensures base + (rules + d) == Updated(base + rules, d, d.Keys)
  {
    forall s ensures Lookup(base + (rules + d), s) == Lookup(Updated(base + rules, d, d.Keys), s) {
    }
    SameTable(base + (rules + d), Updated(base + rules, d, d.Keys));
  }

  lemma SameTable(a: Table, b: Table)
    requires forall s :: Lookup(a, s) == Lookup(b, s)
    ensures a == b
  {
    forall s | s in a ensures s in b && a[s] == b[s] { assert Lookup(a, s) == Lookup(b, s); }
    forall s | s in b ensures s in a { assert Lookup(a, s) == Lookup(b, s); }
  }

  lemma FulfilsSize(t: Table, rs: seq<Request>)
    requires Fulfils(t, rs)
    ensures |t| <= |rs|
  {
    SlotsAtMost(rs);
    assert |t| == |t.Keys|;
  }

  lemma {:induction false} SlotsAtMost(rs: seq<Request>)
    ensures |SlotsOf(rs)| <= |rs|
    decreases |rs|
  {
    if rs != [] {
      var k := |rs| - 1;
      SlotsAtMost(rs[..k]);
      SlotsOfSnoc(rs[..k], rs[k]);
      assert rs[..k] + [rs[k]] == rs;
      UnionAtMost(SlotsOf(rs[..k]), {rs[k].slot});
    }
  }

  /** Settles the buckets of a family that is about to be replaced by the requested rules. */
  method PrepareRules(f: Family, active: Table, rs: seq<Request>, tx: IndexPoolTransaction, ghost t: Table)
    returns (err: Outcome, made: Table)
    requires Covers(t, active, f) && (forall i :: 0 <= i < |rs| ==> InFamily(f, rs[i].slot))
    requires Staged(tx, t) && tx.reserved == [] && tx.retired == []
    modifies tx, tx.pool
    ensures Staged(tx, t) && |tx.reserved| <= |rs|
    ensures err == Applied || err == PoolEmpty || err == Duplicate || err == TooMany
    ensures err == PoolEmpty ==> tx.pool.free == []
    ensures err == Applied ==> Distinct(rs)
    ensures err == Duplicate ==> !Distinct(rs)
    ensures err == TooMany ==> |rs| > MaxRules(f)
    ensures err == Applied ==> Fulfils(made, rs) && |made| <= MaxRules(f)
    ensures err == Applied ==> InUpdate(t, made, made.Keys + active.Keys, tx.reserved, tx.retired)
  {
    NothingYet(t);
    err, made := ReconcileRequests(tx, active, rs, t, map[], {});
    if err != Applied { return; }
    FulfilsSize(made, rs);
    if |made| > MaxRules(f) { return TooMany, made; }
    NothingAdded(made);
    ReleaseRemoved(tx, active, made, t);
  }

  /** Builds the new rules of a family in the copy that is not in use. Neither the configuration nor
      the published copy can change here: they are outside the frame. */
  method StageRules(f: Family, active: Table, inactive: BpfShadowHashMap<Slot, Rule>, rs: seq<Request>,
                    tx: IndexPoolTransaction, ghost t: Table)
    returns (err: Outcome, made: Table, ghost cause: BpfHashMaps.Errno)
    requires Covers(t, active, f) && (forall i :: 0 <= i < |rs| ==> InFamily(f, rs[i].slot))
    requires inactive.Valid() && inactive.bpfMap.capacity == MaxRules(f)
    requires Staged(tx, t) && tx.reserved == [] && tx.retired == []
    modifies tx, tx.pool, inactive, inactive.bpfMap
    ensures inactive.Valid() && Staged(tx, t) && |tx.reserved| <= |rs|
    ensures err != UploadFailed && err != ConfigUnreadable
    ensures err == ReplaceFailed ==> inactive.resyncRequired && cause != BpfHashMaps.E2BIG
    ensures err == PoolEmpty ==> tx.pool.free == []
    ensures err == Applied ==> Distinct(rs)
    ensures err == Duplicate ==> !Distinct(rs)
    ensures err == TooMany ==> |rs| > MaxRules(f)
    ensures err == Applied ==> Fulfils(made, rs) && |made| <= MaxRules(f)
    ensures err == Applied ==> inactive.snapshot == inactive.bpfMap.content == made && !inactive.resyncRequired
    ensures err == Applied ==> InUpdate(t, made, made.Keys + active.Keys, tx.reserved, tx.retired)
  {
    cause := BpfHashMaps.Ok;
    err, made := PrepareRules(f, active, rs, tx, t);
    if err != Applied { return; }
    var ok;
    ok, cause := inactive.Replace(made);
    if !ok { err := ReplaceFailed; }
  }

  /** `rules` are the flag and default rules of the published table. */
  ghost predicate HoldsRules(t: Table, rules: Table) {
    forall s :: s in CfgSlots() ==> Lookup(rules, s) == Lookup(t, s)
  }

  /** Stages the new rules of a family and then the defaults. */
  method StageUpdate(f: Family, active: Table, inactive: BpfShadowHashMap<Slot, Rule>, rules: Table,
                     rs: seq<Request>, defs: seq<Request>, tx: IndexPoolTransaction, ghost t: Table)
    returns (err: Outcome, made: Table, d: Table, ghost cause: BpfHashMaps.Errno)
    requires Covers(t, active, f) && (forall i :: 0 <= i < |rs| ==> InFamily(f, rs[i].slot))
    requires HoldsRules(t, rules) && Distinct(defs) && (forall i :: 0 <= i < |defs| ==> defs[i].slot in CfgSlots())
    requires inactive.Valid() && inactive.bpfMap.capacity == MaxRules(f)
    requires Staged(tx, t) && tx.reserved == [] && tx.retired == []
    modifies tx, tx.pool, inactive, inactive.bpfMap
    ensures inactive.Valid() && Staged(tx, t) && |tx.reserved| <= |rs| + |defs|
    ensures err != UploadFailed && err != ConfigUnreadable
    ensures err == ReplaceFailed ==> inactive.resyncRequired && cause != BpfHashMaps.E2BIG
    ensures err == PoolEmpty ==> tx.pool.free == []
    ensures err == Applied ==> Distinct(rs)
    ensures err == Duplicate ==> !Distinct(rs)
    ensures err == TooMany ==> |rs| > MaxRules(f)
    ensures err == Applied ==> Fulfils(made, rs) && OfFamily(f, made) && Fulfils(d, defs) && d.Keys <= CfgSlots()
    ensures err == Applied ==> inactive.snapshot == inactive.bpfMap.content == made && !inactive.resyncRequired
    ensures err == Applied ==> InUpdate(t, made + d, made.Keys + active.Keys + d.Keys, tx.reserved, tx.retired)
  {
    d := map[];
    err, made, cause := StageRules(f, active, inactive, rs, tx, t);
    if err != Applied { return; }
    DefaultsUntouched(f, active, made, rs, defs);
    err, d := ReconcileRequests(tx, rules, defs, t, made, made.Keys + active.Keys);
  }

  lemma DefaultsUntouched(f: Family, active: Table, made: Table, rs: seq<Request>, defs: seq<Request>)
    requires forall s :: s in active ==> InFamily(f, s)
    requires Fulfils(made, rs) && (forall i :: 0 <= i < |rs| ==> InFamily(f, rs[i].slot))
    requires forall i :: 0 <= i < |defs| ==> defs[i].slot in CfgSlots()
    ensures forall s :: s in made ==> InFamily(f, s)
    ensures forall i :: 0 <= i < |defs| ==> defs[i].slot !in made.Keys + active.Keys
  {
    forall s | s in made ensures InFamily(f, s) { assert s in SlotsOf(rs); }
  }

  /** In `t1` family `f` has exactly the rules `rs`, the defaults `defs` are as wanted, and every other
      slot is as in `t`. */
  ghost predicate Installed(t: Table, t1: Table, f: Family, rs: seq<Request>, defs: seq<Request>) {
    && (forall i :: 0 <= i < |rs| ==> rs[i].slot in t1 && SameLimit(t1[rs[i].slot], rs[i].rule))
    && (forall s :: s in t1 && InFamily(f, s) ==> s in SlotsOf(rs))
    && (forall i :: 0 <= i < |defs| ==> defs[i].slot in t1 && SameLimit(t1[defs[i].slot], defs[i].rule))
    && (forall s :: !InFamily(f, s) && s !in SlotsOf(defs) ==> Lookup(t1, s) == Lookup(t, s))
  }

  /** In `t1` the slots of `defs` are as wanted, and every other slot is as in `t`. */
  ghost predicate InstalledConfig(t: Table, t1: Table, defs: seq<Request>) {
    && (forall i :: 0 <= i < |defs| ==> defs[i].slot in t1 && SameLimit(t1[defs[i].slot], defs[i].rule))
    && (forall s :: s !in SlotsOf(defs) ==> Lookup(t1, s) == Lookup(t, s))
  }

  /** In `t1` every key of a group does what the group chose, and no other slot of the family has a rule. */
  ghost predicate Configured(t1: Table, f: Family, groups: seq<Group>) {
    && (forall g, s :: 0 <= g < |groups| && s in groups[g].keys ==> s in t1 && Does(t1[s], groups[g].choice))
    && (forall s :: s in t1 && InFamily(f, s) ==> HasKey(groups, s))
  }

  predicate Within(s: Slot, lo: nat, hi: nat) { s.DefaultSlot? && lo <= s.index < hi }

  /** In `t1` each default from `lo` up to `hi` does what was chosen for it, or the built-in action. */
  ghost predicate Defaulted(t1: Table, defaults: seq<Option<Choice>>, lo: nat, hi: nat, action: Action)
    requires hi <= |defaults|
  {
    forall i :: lo <= i < hi ==>
      DefaultSlot(i) in t1 &&
      match defaults[i]
      case Some(c) => Does(t1[DefaultSlot(i)], c)
      case None => t1[DefaultSlot(i)].action == action
  }

  /** All other rules are as in `t`. */
  ghost predicate OthersKept(t: Table, t1: Table, f: Family, lo: nat, hi: nat) {
    forall s :: !InFamily(f, s) && !Within(s, lo, hi) ==> Lookup(t1, s) == Lookup(t, s)
  }

  lemma InstalledConfigured(t: Table, t1: Table, f: Family, groups: seq<Group>, defs: seq<Request>)
    requires Installed(t, t1, f, Requests(groups), defs)
    ensures Configured(t1, f, groups)
  {
    var rs := Requests(groups);
    forall g, s | 0 <= g < |groups| && s in groups[g].keys ensures s in t1 && Does(t1[s], groups[g].choice) {
      var i := RequestOf(groups, g, s);
      assert SameLimit(t1[rs[i].slot], rs[i].rule);
    }
    forall s | s in t1 && InFamily(f, s) ensures HasKey(groups, s) {
      var i :| 0 <= i < |rs| && rs[i].slot == s;
      var g := RequestFrom(groups, i);
    }
  }

  /** Exactly the indices from `lo` up to `hi`. */
  ghost predicate Ranges(indices: seq<nat>, lo: nat, hi: nat) {
    (forall i :: 0 <= i < |indices| ==> lo <= indices[i] < hi) && (forall k :: lo <= k < hi ==> k in indices)
  }

  /** `defs` is wanted in `t1` for the defaults. */
  lemma DefaultsInstalled(t1: Table, defaults: seq<Option<Choice>>, indices: seq<nat>, lo: nat, hi: nat, action: Action)
    requires hi <= |defaults| && Ranges(indices, lo, hi)
    requires
      var defs := DefaultRequests(defaults, indices, action);
      forall i :: 0 <= i < |defs| ==> defs[i].slot in t1 && SameLimit(t1[defs[i].slot], defs[i].rule)
    ensures Defaulted(t1, defaults, lo, hi, action) || action == RateLimit
  {
    var defs := DefaultRequests(defaults, indices, action);
    forall k | lo <= k < hi
      ensures
        DefaultSlot(k) in t1 &&
        match defaults[k]
        case Some(c) => Does(t1[DefaultSlot(k)], c)
        case None => t1[DefaultSlot(k)].action == action
    {
      assert k in indices;
      var i :| 0 <= i < |indices| && indices[i] == k;
      assert defs[i].slot == DefaultSlot(k);
    }
  }

  lemma DefaultSlotsOf(defaults: seq<Option<Choice>>, indices: seq<nat>, lo: nat, hi: nat, action: Action, s: Slot)
    requires hi <= |defaults| && Ranges(indices, lo, hi)
    ensures s in SlotsOf(DefaultRequests(defaults, indices, action)) ==> Within(s, lo, hi)
  {
  }

  lemma DefaultRanges()
    ensures Ranges(DST_DEFAULTS, 8, 12) && Ranges(ICMP_DEFAULTS, 12, 14) && Ranges(SRC_DEFAULTS, 0, 8)
  {
    assert DST_DEFAULTS[0] == 8 && DST_DEFAULTS[1] == 9 && DST_DEFAULTS[2] == 10 && DST_DEFAULTS[3] == 11;
    assert ICMP_DEFAULTS[0] == 12 && ICMP_DEFAULTS[1] == 13;
    assert SRC_DEFAULTS[0] == 0 && SRC_DEFAULTS[2] == 1 && SRC_DEFAULTS[1] == 2 && SRC_DEFAULTS[3] == 3;
    assert SRC_DEFAULTS[4] == 4 && SRC_DEFAULTS[6] == 5 && SRC_DEFAULTS[5] == 6 && SRC_DEFAULTS[7] == 7;
  }

  /** What an applied update of a family means. */
  lemma InstalledMeans(t: Table, t1: Table, f: Family, groups: seq<Group>, defaults: seq<Option<Choice>>,
                       indices: seq<nat>, lo: nat, hi: nat, action: Action)
    requires hi <= |defaults| && Ranges(indices, lo, hi) && action != RateLimit
    requires Installed(t, t1, f, Requests(groups), DefaultRequests(defaults, indices, action))
    ensures Configured(t1, f, groups) && Defaulted(t1, defaults, lo, hi, action) && OthersKept(t, t1, f, lo, hi)
  {
    InstalledConfigured(t, t1, f, groups, DefaultRequests(defaults, indices, action));
    DefaultsInstalled(t1, defaults, indices, lo, hi, action);
    forall s | !InFamily(f, s) && !Within(s, lo, hi) ensures Lookup(t1, s) == Lookup(t, s) {
      DefaultSlotsOf(defaults, indices, lo, hi, action, s);
    }
  }

  /** What an applied update of the source defaults means. */
  lemma SourceDefaultsMean(t: Table, t1: Table, defaults: seq<Option<Choice>>)
    requires |defaults| == MAX_DEFAULT_RULES && InstalledConfig(t, t1, SrcDefaults(defaults))
    ensures Defaulted(t1, defaults, 0, 8, Allow)
    ensures forall s :: !Within(s, 0, 8) ==> Lookup(t1, s) == Lookup(t, s)
  {
    DefaultRanges();
    DefaultsInstalled(t1, defaults, SRC_DEFAULTS, 0, 8, Allow);
    forall s | !Within(s, 0, 8) ensures Lookup(t1, s) == Lookup(t, s) {
      DefaultSlotsOf(defaults, SRC_DEFAULTS, 0, 8, Allow, s);
    }
  }

  /** What an applied update of a flag filter means. */
  lemma FlagRuleMeans(t: Table, t1: Table, flag: nat, limit: Option<nat>)
    requires InstalledConfig(t, t1, [Request(FlagSlot(flag), ActionRule(true, limit))])
    ensures FlagSlot(flag) in t1 && Does(t1[FlagSlot(flag)], Choice(true, limit))
    ensures forall s :: s != FlagSlot(flag) ==> Lookup(t1, s) == Lookup(t, s)
  {
    var wanted := [Request(FlagSlot(flag), ActionRule(true, limit))];
    assert wanted[0].slot == FlagSlot(flag);
    assert forall s :: s in SlotsOf(wanted) ==> s == FlagSlot(flag);
  }

  lemma UpdateInstalls(t: Table, active: Table, f: Family, made: Table, rs: seq<Request>, d: Table, defs: seq<Request>)
    requires Covers(t, active, f) && Fulfils(made, rs) && Fulfils(d, defs) && d.Keys <= CfgSlots()
    requires forall s :: s in made ==> InFamily(f, s)
    ensures Installed(t, Updated(t, made + d, made.Keys + active.Keys + d.Keys), f, rs, defs)
  {
    var t1 := Updated(t, made + d, made.Keys + active.Keys + d.Keys);
    assert forall s :: s in d ==> !InFamily(f, s);
    forall s ensures Lookup(t1, s) == if s in d then Some(d[s]) else if InFamily(f, s) then Lookup(made, s) else Lookup(t, s) {
      assert InFamily(f, s) ==> Lookup(active, s) == Lookup(t, s);
    }
    forall s | s in t1 && InFamily(f, s) ensures s in SlotsOf(rs) { assert Lookup(t1, s) == Lookup(made, s); }
    forall i | 0 <= i < |rs| ensures rs[i].slot in t1 && SameLimit(t1[rs[i].slot], rs[i].rule) {
      assert Lookup(t1, rs[i].slot) == Lookup(made, rs[i].slot);
    }
    forall i | 0 <= i < |defs| ensures defs[i].slot in t1 && SameLimit(t1[defs[i].slot], defs[i].rule) {
      assert Lookup(t1, defs[i].slot) == Lookup(d, defs[i].slot);
    }
  }

  lemma NothingAdded(made: Table)
    ensures map[] + made == made && {} + made.Keys == made.Keys
  {
  }

  lemma NothingYet(t: Table)
    ensures InUpdate(t, map[], {}, [], [])
  {
  }

  // ----- how many buckets can be in use

  lemma UnionAtMost<T>(a: set<T>, b: set<T>)
    ensures |a + b| <= |a| + |b|
  {
    assert a + b == a + (b - a) && |a + (b - a)| == |a| + |b - a|;
    SubsetSize(b - a, b);
  }

  lemma {:induction false} RangeSize(n: nat, s: set<nat>)
    requires forall x: nat :: x < n ==> x in s
    ensures |s| >= n
    decreases n
  {
    if n > 0 {
      assert n - 1 in s;
      RangeSize(n - 1, s - {n - 1});
    }
  }

  function Elements(s: seq<nat>): set<nat> { set x | x in s }

  lemma {:induction false} ElementsAtMost(s: seq<nat>)
    ensures |Elements(s)| <= |s|
    decreases |s|
  {
    if s != [] {
      var k := |s| - 1;
      ElementsAtMost(s[..k]);
      assert s == s[..k] + [s[k]];
      assert Elements(s) == Elements(s[..k]) + {s[k]};
      UnionAtMost(Elements(s[..k]), {s[k]});
    }
  }

  lemma {:induction false} LiveAtMost(t: Table)
    ensures |Live(t)| <= |t|
    decreases |t|
  {
    if t != map[] {
      var s :| s in t;
      LiveAtMost(t - {s});
      assert t.Keys == (t - {s}).Keys + {s};
      assert Live(t) <= Live(t - {s}) + {t[s].bucket};
      SubsetSize(Live(t), Live(t - {s}) + {t[s].bucket});
      UnionAtMost(Live(t - {s}), {t[s].bucket});
    }
  }

  lemma {:induction false} FlagsAtMost(n: nat)
    ensures |Flags(n)| <= n
  {
    if n > 0 {
      FlagsAtMost(n - 1);
      assert Flags(n) == Flags(n - 1) + {FlagSlot(n - 1)};
    }
  }

  lemma {:induction false} DefaultsAtMost(n: nat)
    ensures |Defaults(n)| <= n
  {
    if n > 0 {
      DefaultsAtMost(n - 1);
      assert Defaults(n) == Defaults(n - 1) + {DefaultSlot(n - 1)};
    }
  }

  /** No published table uses more than half of the buckets. */
  lemma PublishedAtMost(dst: Table, icmp: Table, rules: Table)
    requires OfFamily(Dst, dst) && OfFamily(Icmp, icmp) && rules.Keys == CfgSlots()
    ensures 2 * |dst + icmp + rules| <= MAX_BUCKETS
  {
    FlagsAtMost(MAX_TCP_FLAG_RULES);
    DefaultsAtMost(MAX_DEFAULT_RULES);
    UnionAtMost(Flags(MAX_TCP_FLAG_RULES), Defaults(MAX_DEFAULT_RULES));
    UnionAtMost(dst.Keys, icmp.Keys);
    UnionAtMost(dst.Keys + icmp.Keys, rules.Keys);
    assert (dst + icmp + rules).Keys == dst.Keys + icmp.Keys + rules.Keys;
  }

  /** An empty pool means that reserved and published buckets are all the buckets. */
  lemma EmptyPoolMeansAllUsed(n: nat, reserved: seq<nat>, t: Table)
    requires forall x: nat :: x < n ==> x in reserved || x in Live(t)
    ensures n <= |reserved| + |t|
  {
    var used := Elements(reserved) + Live(t);
    assert forall x: nat :: x < n ==> x in used;
    RangeSize(n, used);
    ElementsAtMost(reserved);
    LiveAtMost(t);
    UnionAtMost(Elements(reserved), Live(t));
  }

  ghost predicate InStep(m: BpfShadowHashMap<Slot, Rule>)
    reads m, m.bpfMap
  {
    !m.resyncRequired && m.snapshot == m.bpfMap.content
  }

  ghost predicate OfFamily(f: Family, t: Table) {
    |t| <= MaxRules(f) && forall s :: s in t ==> InFamily(f, s)
  }

  function NextMapIdx(i: nat): nat { if i == 0 then 1 else 0 }

  /** The rules of `t` went on counting. */
  ghost predicate CountersKept(t: Table, h: History, h1: History) {
    && Quiet(h, h1)
    && forall s :: Limits(t, s) ==>
         Since(h1, t[s].bucket) == Since(h, t[s].bucket) + Charges(h1[|h|..], t[s].bucket)
  }

  /** Upload `at` replaced `t` by `t1`: a rule with an unchanged limit went on counting, any other limit
      counts from that upload on. */
  ghost predicate CountersCarried(t: Table, t1: Table, h: History, h1: History, at: nat) {
    && Upload(h, h1, at)
    && (forall s :: Keeps(t, t1, s) ==>
          Since(h1, t1[s].bucket) == Since(h, t[s].bucket) + Charges(h1[|h|..], t[s].bucket))
    && (forall s :: Limits(t1, s) && !Keeps(t, t1, s) ==> Since(h1, t1[s].bucket) == Charges(h1[at + 1..], t1[s].bucket))
  }

  lemma KeepCounters(t: Table, h: History, h1: History)
    requires Safe(h1) && Quiet(h, h1) && LiveAt(h) == Live(t)
    ensures CountersKept(t, h, h1)
  {
    forall s | Limits(t, s)
      ensures Since(h1, t[s].bucket) == Since(h, t[s].bucket) + Charges(h1[|h|..], t[s].bucket)
    {
      QuietKeeps(h, h1, t[s].bucket);
    }
  }

  lemma CarryCounters(t: Table, t1: Table, h: History, h1: History, at: nat)
    requires Safe(h1) && Upload(h, h1, at) && LiveAt(h) == Live(t) && LiveAt(h1) == Live(t1) && Inherits(t, t1)
    ensures CountersCarried(t, t1, h, h1, at)
  {
    forall s | Keeps(t, t1, s)
      ensures Since(h1, t1[s].bucket) == Since(h, t[s].bucket) + Charges(h1[|h|..], t[s].bucket)
    {
      UploadKeeps(h, h1, at, t[s].bucket);
    }
    forall s | Limits(t1, s) && !Keeps(t, t1, s)
      ensures Since(h1, t1[s].bucket) == Charges(h1[at + 1..], t1[s].bucket)
    {
      UploadStartsZero(h, h1, at, t1[s].bucket);
    }
  }

  /** What outcome `r` of an update from `t` to `t1` means for the counters. */
  ghost predicate Accounted(r: Outcome, t: Table, t1: Table, h: History, h1: History) {
    if r == Applied then exists at :: CountersCarried(t, t1, h, h1, at) else CountersKept(t, h, h1)
  }

  class BpfMapsManager {
    const store: BucketArray
    const pool: IndexPool
    /** Primary and secondary destination map, primary and secondary ICMP map. */
    const copies: seq<BpfShadowHashMap<Slot, Rule>>
    /** The content of the configuration map. */
    var cfg: FilterCfg

    /** The shadow copies and their kernel maps. */
    ghost function MapObjects(): set<object> {
      (set m | m in copies :: m as object) + (set m | m in copies :: m.bpfMap as object)
    }

    static function Index(c: FilterCfg, f: Family): nat {
      if f == Dst then c.amapDst else c.amapIcmp
    }

    static function Position(f: Family, i: nat): nat {
      (if f == Dst then 0 else 2) + (if i == 0 then 0 else 1)
    }

    /** The copy of family `f` that configuration `c` selects, and the other one. */
    function Active(c: FilterCfg, f: Family): BpfShadowHashMap<Slot, Rule>
      requires |copies| == 4
    {
      copies[Position(f, Index(c, f))]
    }

    function Inactive(c: FilterCfg, f: Family): BpfShadowHashMap<Slot, Rule>
      requires |copies| == 4
    {
      copies[Position(f, NextMapIdx(Index(c, f)))]
    }

    /** Everything the datapath sees under configuration `c`. */
    function TableOf(c: FilterCfg): Table
      requires |copies| == 4
      reads Active(c, Dst).bpfMap, Active(c, Icmp).bpfMap
    {
      Active(c, Dst).bpfMap.content + Active(c, Icmp).bpfMap.content + c.rules
    }

    function Published(): Table
      requires |copies| == 4
      reads this, Active(cfg, Dst).bpfMap, Active(cfg, Icmp).bpfMap
    {
      TableOf(cfg)
    }

    /** The copy that `c` selects is in step with its snapshot, of the right kind and size. */
    ghost predicate Selects(c: FilterCfg, f: Family)
      requires |copies| == 4
      reads Active(c, f), Active(c, f).bpfMap
    {
      InStep(Active(c, f)) && OfFamily(f, Active(c, f).bpfMap.content)
    }

    ghost predicate Separate() {
      && pool.store == store && |copies| == 4
      && (forall i, j :: 0 <= i < j < 4 ==> copies[i] != copies[j] && copies[i].bpfMap != copies[j].bpfMap)
      && copies[0].bpfMap.capacity == copies[1].bpfMap.capacity == MAX_DST_RULES
      && copies[2].bpfMap.capacity == copies[3].bpfMap.capacity == MAX_ICMP_RULES
    }

    /** The rule maps under configuration `c`. */
    ghost predicate Maps(c: FilterCfg)
      reads MapObjects()
    {
      && Separate()
      && (forall m :: m in copies ==> m.Valid())
      && (assert Active(c, Dst) in copies && Active(c, Icmp) in copies; Selects(c, Dst) && Selects(c, Icmp))
      && c.rules.Keys == CfgSlots()
    }

    /** Free, pending and published buckets partition all buckets, no published bucket is shared,
        no free bucket is in use, and the bucket history is safe. */
    ghost predicate Buckets(pending: seq<nat>, t: Table)
      reads pool, store
    {
      && pool.store == store && |store.slots| == MAX_BUCKETS
      && pool.Consistent(pending)
      && LiveAt(store.history) == Live(t) && Unshared(t)
    }

    ghost predicate Valid()
      reads this, pool, store, MapObjects()
    {
      Maps(cfg) && Buckets([], Published())
    }

    /** A freshly loaded datapath: zeroed configuration, empty maps, zeroed buckets. */
    constructor (p: IndexPool, maps: seq<BpfShadowHashMap<Slot, Rule>>, zeroed: Table)
      requires p.Consistent([]) && p.store.history == [] && |p.store.slots| == MAX_BUCKETS
      requires |maps| == 4 && forall m :: m in maps ==> InStep(m) && m.snapshot == map[]
      requires forall i, j :: 0 <= i < j < 4 ==> maps[i] != maps[j] && maps[i].bpfMap != maps[j].bpfMap
      requires maps[0].bpfMap.capacity == maps[1].bpfMap.capacity == MAX_DST_RULES
      requires maps[2].bpfMap.capacity == maps[3].bpfMap.capacity == MAX_ICMP_RULES
      requires zeroed.Keys == CfgSlots() && forall s :: s in zeroed ==> zeroed[s].action == Allow
      ensures Valid() && Published() == zeroed
    {
      store, pool := p.store, p;
      copies := maps;
      cfg := FilterCfg(zeroed, 0, 0, 0);
      new;
      assert Active(cfg, Dst) in maps && Active(cfg, Icmp) in maps;
      assert Published() == zeroed;
      NoLimitsNoBuckets(zeroed);
    }

    /** An update that cannot go on gives its reserved buckets back. */
    method Abort(tx: IndexPoolTransaction, ghost t: Table)
      requires tx.pool == pool && Buckets(tx.reserved, t)
      modifies tx, pool, store
      ensures Buckets([], t) && Quiet(old(store.history), store.history)
    {
      tx.Rollback();
    }

    /** After publication the buckets of the replaced rules go back to the pool. */
    method Settle(tx: IndexPoolTransaction, ghost t: Table)
      requires tx.pool == pool && Buckets(tx.retired, t)
      modifies tx, pool, store
      ensures Buckets([], t) && Quiet(old(store.history), store.history)
    {
      tx.Commit();
    }

    method TrafficWhileStaged(tx: IndexPoolTransaction, ghost t: Table)
      requires tx.pool == pool && pool.store == store && Staged(tx, t)
      modifies store
      ensures Staged(tx, t) && |store.slots| == old(|store.slots|) && Quiet(old(store.history), store.history)
    {
      store.Traffic();
    }

    /** The one write that makes a staged update visible: the configuration entry, whole. */
    method Publish(c: FilterCfg, tx: IndexPoolTransaction, ghost t: Table, ghost nt: Table, ghost done: set<Slot>)
      requires tx.pool == pool && pool.store == store && |store.slots| == MAX_BUCKETS
      requires Staged(tx, t) && InUpdate(t, nt, done, tx.reserved, tx.retired)
      requires |copies| == 4 && TableOf(c) == Updated(t, nt, done)
      modifies `cfg, store
      ensures cfg == c && Buckets(tx.retired, TableOf(c))
      ensures store.history == old(store.history) + [Event.Published(Live(TableOf(c)))]
    {
      PublishPartition(|store.slots|, pool.free, t, nt, done, tx.reserved, tx.retired);
      Append(store.history, Event.Published(Live(TableOf(c))));
      store.Publish(Live(TableOf(c)));
      cfg := c;
    }

    /** Writes the configuration, if the kernel lets it, with traffic going on before and after, and
        settles the buckets. */
    method UploadConfigChanges(c: FilterCfg, tx: IndexPoolTransaction, uploads: bool,
                               ghost t: Table, ghost nt: Table, ghost done: set<Slot>) returns (r: Outcome)
      requires tx.pool == pool && pool.store == store && |store.slots| == MAX_BUCKETS
      requires Staged(tx, t) && InUpdate(t, nt, done, tx.reserved, tx.retired)
      requires |copies| == 4 && TableOf(c) == Updated(t, nt, done)
      modifies `cfg, tx, pool, store
      ensures r == if uploads then Applied else UploadFailed
      ensures r == Applied ==> cfg == c && Buckets([], Updated(t, nt, done))
      ensures r == Applied ==> exists at :: Upload(old(store.history), store.history, at)
      ensures r == UploadFailed ==> cfg == old(cfg) && Buckets([], t) && Quiet(old(store.history), store.history)
    {
      TrafficWhileStaged(tx, t);
      ghost var before := store.history;
      if !uploads {
        Abort(tx, t);
        QuietOn(old(store.history), before, store.history);
        return UploadFailed;
      }
      Publish(c, tx, t, nt, done);
      Settle(tx, Updated(t, nt, done));
      assert store.history[..|before|] == before;
      assert Upload(old(store.history), store.history, |before|);
      return Applied;
    }

    /** Writing the copy that is not in use leaves what the datapath sees alone. */
    twostate lemma PublishedKept(f: Family)
      requires old(Maps(cfg)) && old(cfg) == cfg && Inactive(cfg, f).Valid()
      requires forall k :: 0 <= k < 4 && copies[k] != Inactive(cfg, f) ==>
        unchanged(copies[k]) && unchanged(copies[k].bpfMap)
      ensures Maps(cfg) && Published() == old(Published())
    {
      assert Active(cfg, Dst) in copies && Active(cfg, Icmp) in copies;
      assert Position(f, Index(cfg, f)) != Position(f, NextMapIdx(Index(cfg, f)));
      assert Active(cfg, Dst) != Inactive(cfg, f) && Active(cfg, Icmp) != Inactive(cfg, f);
      forall m | m in copies ensures m.Valid() {
        if m != Inactive(cfg, f) {
          var k :| 0 <= k < 4 && copies[k] == m;
          assert unchanged(m) && unchanged(m.bpfMap);
        }
      }
    }

    /** The configuration that selects the other copy of family `f`. */
    static function Switch(c: FilterCfg, f: Family, rules: Table): FilterCfg {
      match f
      case Dst => c.(amapDst := NextMapIdx(c.amapDst), rules := rules)
      case Icmp => c.(amapIcmp := NextMapIdx(c.amapIcmp), rules := rules)
    }

    ghost function FamilyTable(c: FilterCfg, f: Family): Table
      requires |copies| == 4
      reads Active(c, f).bpfMap
    {
      Active(c, f).bpfMap.content
    }

    lemma TableByFamily(c: FilterCfg, f: Family)
      requires Maps(c)
      ensures TableOf(c) == FamilyTable(c, f) + FamilyTable(c, OtherFamily(f)) + c.rules
      ensures Covers(TableOf(c), FamilyTable(c, f), f)
    {
      JoinCommutes(FamilyTable(c, Dst), FamilyTable(c, Icmp), c.rules, Dst);
      FamilyCovers(FamilyTable(c, Dst), FamilyTable(c, Icmp), c.rules, f);
    }

    lemma SwitchKeepsMaps(f: Family, rules: Table)
      requires Maps(cfg) && InStep(Inactive(cfg, f)) && OfFamily(f, Inactive(cfg, f).bpfMap.content)
      requires rules.Keys == CfgSlots()
      ensures Maps(Switch(cfg, f, rules))
      ensures Active(Switch(cfg, f, rules), f) == Inactive(cfg, f)
      ensures Active(Switch(cfg, f, rules), OtherFamily(f)) == Active(cfg, OtherFamily(f))
    {
    }

    /** The switched configuration publishes exactly the staged update. */
    lemma SwitchIsUpdate(f: Family, made: Table, defs: Table)
      requires Maps(cfg) && InStep(Inactive(cfg, f)) && OfFamily(f, made)
      requires Inactive(cfg, f).bpfMap.content == made && defs.Keys <= CfgSlots()
      ensures
        var c := Switch(cfg, f, cfg.rules + defs);
        && Maps(c)
        && TableOf(c) == Updated(Published(), made + defs, made.Keys + FamilyTable(cfg, f).Keys + defs.Keys)
    {
      var c := Switch(cfg, f, cfg.rules + defs);
      SwitchKeepsMaps(f, cfg.rules + defs);
      TableByFamily(cfg, f);
      TableByFamily(c, f);
      assert FamilyTable(c, f) == made && FamilyTable(c, OtherFamily(f)) == FamilyTable(cfg, OtherFamily(f));
      SwitchedFamilies(f, made, defs);
    }

    lemma SwitchedFamilies(f: Family, made: Table, defs: Table)
      requires Maps(cfg) && OfFamily(f, made) && defs.Keys <= CfgSlots()
      ensures
        var mine, other := FamilyTable(cfg, f), FamilyTable(cfg, OtherFamily(f));
        made + other + (cfg.rules + defs)
          == Updated(mine + other + cfg.rules, made + defs, made.Keys + mine.Keys + defs.Keys)
    {
      SwitchedTable(FamilyTable(cfg, f), FamilyTable(cfg, OtherFamily(f)), cfg.rules, f, made, defs);
    }

    /** With the published rules within their limits, an empty pool takes more new buckets than half of all. */
    lemma PoolEmptyMeansMany(tx: IndexPoolTransaction)
      requires Maps(cfg) && tx.pool == pool && Staged(tx, Published()) && pool.free == []
      requires |store.slots| == MAX_BUCKETS
      ensures 2 * |tx.reserved| >= MAX_BUCKETS
    {
      PublishedAtMost(FamilyTable(cfg, Dst), FamilyTable(cfg, Icmp), cfg.rules);
      EmptyPoolMeansAllUsed(MAX_BUCKETS, tx.reserved, Published());
    }

    /** Bucket operations do not touch the rule maps. */
    twostate lemma MapsKept(c: FilterCfg)
      requires old(Maps(c))
      requires forall k :: 0 <= k < 4 ==> unchanged(copies[k]) && unchanged(copies[k].bpfMap)
      ensures Maps(c) && TableOf(c) == old(TableOf(c))
      ensures forall f :: FamilyTable(c, f) == old(FamilyTable(c, f))
    {
      assert Active(c, Dst) in copies && Active(c, Icmp) in copies;
      forall m | m in copies ensures m.Valid() {
        var k :| 0 <= k < 4 && copies[k] == m;
        assert unchanged(m) && unchanged(m.bpfMap);
      }
    }

    /** What happens outside the manager's objects does not concern it. */
    twostate lemma ManagerKept()
      requires old(Valid()) && unchanged(this) && unchanged(pool) && unchanged(store)
      requires forall k :: 0 <= k < 4 ==> unchanged(copies[k]) && unchanged(copies[k].bpfMap)
      ensures Valid() && Published() == old(Published())
    {
      MapsKept(cfg);
    }

    /** Stages the new rules of family `f` and the defaults next to the published table. */
    method Stage(f: Family, rs: seq<Request>, defs: seq<Request>, tx: IndexPoolTransaction, ghost t: Table)
      returns (err: Outcome, made: Table, d: Table, ghost cause: BpfHashMaps.Errno)
      requires Maps(cfg) && tx.pool == pool && t == Published()
      requires Staged(tx, t) && tx.reserved == [] && tx.retired == []
      requires forall i :: 0 <= i < |rs| ==> InFamily(f, rs[i].slot)
      requires Distinct(defs) && forall i :: 0 <= i < |defs| ==> defs[i].slot in CfgSlots()
      modifies tx, pool, Inactive(cfg, f), Inactive(cfg, f).bpfMap
      ensures Maps(cfg) && Published() == t
      ensures Staged(tx, t) && |tx.reserved| <= |rs| + |defs|
      ensures err != UploadFailed && err != ConfigUnreadable
      ensures err == ReplaceFailed ==> Inactive(cfg, f).resyncRequired && cause != BpfHashMaps.E2BIG
      ensures err == PoolEmpty ==> pool.free == []
      ensures err == Applied ==> Distinct(rs)
      ensures err == Duplicate ==> !Distinct(rs)
      ensures err == TooMany ==> |rs| > MaxRules(f)
      ensures err == Applied ==> Fulfils(made, rs) && OfFamily(f, made) && Fulfils(d, defs) && d.Keys <= CfgSlots()
      ensures err == Applied ==> InStep(Inactive(cfg, f)) && Inactive(cfg, f).bpfMap.content == made
      ensures err == Applied ==> InUpdate(t, made + d, made.Keys + FamilyTable(cfg, f).Keys + d.Keys, tx.reserved, tx.retired)
    {
      TableByFamily(cfg, f);
      assert Inactive(cfg, f) in copies;
      err, made, d, cause :=
        StageUpdate(f, Active(cfg, f).snapshot, Inactive(cfg, f), cfg.rules, rs, defs, tx, t);
      PublishedKept(f);
    }

    /** Uploads configuration `c`, which publishes the staged update. */
    method Finish(c: FilterCfg, tx: IndexPoolTransaction, uploads: bool,
                  ghost t: Table, ghost nt: Table, ghost done: set<Slot>) returns (r: Outcome)
      requires tx.pool == pool && pool.store == store && |store.slots| == MAX_BUCKETS
      requires Maps(cfg) && Maps(c) && t == Published() && TableOf(c) == Updated(t, nt, done)
      requires Staged(tx, t) && InUpdate(t, nt, done, tx.reserved, tx.retired)
      modifies `cfg, tx, pool, store
      ensures Valid()
      ensures r == if uploads then Applied else UploadFailed
      ensures cfg == if r == Applied then c else old(cfg)
      ensures Published() == if r == Applied then Updated(t, nt, done) else t
      ensures r == Applied ==> Inherits(t, Published())
      ensures Accounted(r, t, Published(), old(store.history), store.history)
    {
      r := UploadCounted(c, tx, uploads, t, nt, done);
      MapsKept(c);
      MapsKept(old(cfg));
    }

    method UploadCounted(c: FilterCfg, tx: IndexPoolTransaction, uploads: bool,
                         ghost t: Table, ghost nt: Table, ghost done: set<Slot>) returns (r: Outcome)
      requires tx.pool == pool && pool.store == store && |store.slots| == MAX_BUCKETS
      requires Staged(tx, t) && InUpdate(t, nt, done, tx.reserved, tx.retired)
      requires |copies| == 4 && TableOf(c) == Updated(t, nt, done)
      modifies `cfg, tx, pool, store
      ensures r == if uploads then Applied else UploadFailed
      ensures r == Applied ==> cfg == c && Buckets([], Updated(t, nt, done)) && Inherits(t, Updated(t, nt, done))
      ensures r == UploadFailed ==> cfg == old(cfg) && Buckets([], t)
      ensures Accounted(r, t, Updated(t, nt, done), old(store.history), store.history)
    {
      ghost var before := store.history;
      UpdatedInherits(t, nt, done, tx.reserved, tx.retired);
      r := UploadConfigChanges(c, tx, uploads, t, nt, done);
      if r == Applied {
        ghost var at :| Upload(before, store.history, at);
        CarryCounters(t, Updated(t, nt, done), before, store.history, at);
      } else {
        KeepCounters(t, before, store.history);
      }
    }

    /** Any number of packets, between two updates. */
    method Traffic()
      requires Valid()
      modifies store
      ensures Valid() && Published() == old(Published())
      ensures CountersKept(Published(), old(store.history), store.history)
    {
      ghost var before := store.history;
      store.Traffic();
      KeepCounters(Published(), before, store.history);
    }

    /** Gives up: the reserved buckets go back, everything else is as before. */
    method GiveUp(tx: IndexPoolTransaction)
      requires tx.pool == pool && pool.store == store && |store.slots| == MAX_BUCKETS
      requires Maps(cfg) && Staged(tx, Published())
      modifies tx, pool, store
      ensures Valid() && Published() == old(Published())
      ensures CountersKept(Published(), old(store.history), store.history)
    {
      ghost var before := store.history;
      Abort(tx, Published());
      KeepCounters(Published(), before, store.history);
      MapsKept(cfg);
    }

    /** Replaces the rules of family `f` and the defaults of `defs`. Whatever fails, and wherever, the
        datapath keeps seeing the old table; otherwise it sees the new one. Whether the configuration can
        be read and written is up to the kernel. */
    method SetRules(f: Family, rs: seq<Request>, defs: seq<Request>, readable: bool, uploads: bool)
      returns (r: Outcome, ghost cause: BpfHashMaps.Errno)
      requires Valid()
      requires forall i :: 0 <= i < |rs| ==> InFamily(f, rs[i].slot)
      requires Distinct(defs) && forall i :: 0 <= i < |defs| ==> defs[i].slot in CfgSlots()
      modifies `cfg, pool, store, Inactive(cfg, f), Inactive(cfg, f).bpfMap
      ensures Valid()
      ensures r != Applied ==> cfg == old(cfg) && Published() == old(Published())
      ensures cfg.amapSrc == old(cfg.amapSrc)
      ensures r == Applied ==> Installed(old(Published()), Published(), f, rs, defs)
      ensures r == Applied ==> Inherits(old(Published()), Published())
      ensures Accounted(r, old(Published()), Published(), old(store.history), store.history)
      ensures r == Applied ==> Distinct(rs)
      ensures r == Duplicate ==> !Distinct(rs)
      ensures r == TooMany ==> |rs| > MaxRules(f)
      ensures r == ConfigUnreadable <==> !readable
      ensures r == Applied ==> uploads
      ensures r == UploadFailed ==> !uploads
      ensures r == ReplaceFailed ==> Inactive(cfg, f).resyncRequired && cause != BpfHashMaps.E2BIG
      ensures 2 * (|rs| + |defs|) < MAX_BUCKETS ==> r != PoolEmpty
    {
      ghost var t := Published();
      cause := BpfHashMaps.Ok;
      if !readable {
        KeepCounters(t, store.history, store.history);
        r := ConfigUnreadable;
        return;
      }
      r, cause := StageAndSwitch(f, rs, defs, uploads, t);
    }

    method StageAndSwitch(f: Family, rs: seq<Request>, defs: seq<Request>, uploads: bool, ghost t: Table)
      returns (r: Outcome, ghost cause: BpfHashMaps.Errno)
      requires Valid() && t == Published()
      requires forall i :: 0 <= i < |rs| ==> InFamily(f, rs[i].slot)
      requires Distinct(defs) && forall i :: 0 <= i < |defs| ==> defs[i].slot in CfgSlots()
      modifies `cfg, pool, store, Inactive(cfg, f), Inactive(cfg, f).bpfMap
      ensures Valid() && cfg.amapSrc == old(cfg.amapSrc)
      ensures r != Applied ==> cfg == old(cfg) && Published() == t
      ensures r == Applied ==> Installed(t, Published(), f, rs, defs) && Inherits(t, Published())
      ensures Accounted(r, t, Published(), old(store.history), store.history)
      ensures r == Applied ==> Distinct(rs) && uploads
      ensures r == Duplicate ==> !Distinct(rs)
      ensures r == TooMany ==> |rs| > MaxRules(f)
      ensures r != ConfigUnreadable && (r == UploadFailed ==> !uploads)
      ensures r == ReplaceFailed ==> Inactive(cfg, f).resyncRequired && cause != BpfHashMaps.E2BIG
      ensures 2 * (|rs| + |defs|) < MAX_BUCKETS ==> r != PoolEmpty
    {
      var tx := new IndexPoolTransaction(pool);
      var made, d;
      r, made, d, cause := Stage(f, rs, defs, tx, t);
      if r != Applied {
        if r == PoolEmpty { PoolEmptyMeansMany(tx); }
        GiveUp(tx);
        return;
      }
      r := SwitchTo(f, made, d, tx, uploads, rs, defs, t);
    }

    /** Publishes what was staged next to the published table `t`: the other copy of family `f`, and the
        defaults. */
    method SwitchTo(f: Family, made: Table, d: Table, tx: IndexPoolTransaction, uploads: bool,
                    ghost rs: seq<Request>, ghost defs: seq<Request>, ghost t: Table) returns (r: Outcome)
      requires Maps(cfg) && tx.pool == pool && |store.slots| == MAX_BUCKETS && t == Published()
      requires Fulfils(made, rs) && OfFamily(f, made) && Fulfils(d, defs) && d.Keys <= CfgSlots()
      requires InStep(Inactive(cfg, f)) && Inactive(cfg, f).bpfMap.content == made
      requires Staged(tx, t) && InUpdate(t, made + d, made.Keys + FamilyTable(cfg, f).Keys + d.Keys, tx.reserved, tx.retired)
      modifies `cfg, tx, pool, store
      ensures Valid() && cfg.amapSrc == old(cfg.amapSrc)
      ensures r == if uploads then Applied else UploadFailed
      ensures r != Applied ==> cfg == old(cfg) && Published() == t
      ensures r == Applied ==> Installed(t, Published(), f, rs, defs) && Inherits(t, Published())
      ensures Accounted(r, t, Published(), old(store.history), store.history)
    {
      ghost var done := made.Keys + FamilyTable(cfg, f).Keys + d.Keys;
      SwitchIsUpdate(f, made, d);
      TableByFamily(cfg, f);
      UpdateInstalls(t, FamilyTable(cfg, f), f, made, rs, d, defs);
      r := Finish(Switch(cfg, f, cfg.rules + d), tx, uploads, t, made + d, done);
    }

    /** Replaces flag and default rules, and the index of the source maps in use. */
    method SetConfigRules(defs: seq<Request>, amapSrc: nat, readable: bool, uploads: bool) returns (r: Outcome)
      requires Valid()
      requires Distinct(defs) && forall i :: 0 <= i < |defs| ==> defs[i].slot in CfgSlots()
      modifies `cfg, pool, store
      ensures Valid()
      ensures r == PoolEmpty || r == if !readable then ConfigUnreadable else if uploads then Applied else UploadFailed
      ensures r != Applied ==> cfg == old(cfg) && Published() == old(Published())
      ensures r == Applied ==> cfg.amapSrc == amapSrc
      ensures r == Applied ==> InstalledConfig(old(Published()), Published(), defs)
      ensures r == Applied ==> Inherits(old(Published()), Published())
      ensures Accounted(r, old(Published()), Published(), old(store.history), store.history)
      ensures 2 * |defs| < MAX_BUCKETS ==> r != PoolEmpty
    {
      KeepCounters(Published(), store.history, store.history);
      if !readable { return ConfigUnreadable; }
      var tx := new IndexPoolTransaction(pool);
      ghost var t := Published();
      var err, d := StageConfig(defs, tx);
      if err != Applied {
        PoolEmptyMeansMany(tx);
        GiveUp(tx);
        return err;
      }
      ConfigIsUpdate(d, defs, amapSrc);
      r := Finish(cfg.(rules := cfg.rules + d, amapSrc := amapSrc), tx, uploads, t, d, d.Keys);
    }

    lemma ConfigIsUpdate(d: Table, defs: seq<Request>, amapSrc: nat)
      requires Maps(cfg) && Fulfils(d, defs) && (forall i :: 0 <= i < |defs| ==> defs[i].slot in CfgSlots())
      ensures Maps(cfg.(rules := cfg.rules + d, amapSrc := amapSrc))
      ensures TableOf(cfg.(rules := cfg.rules + d, amapSrc := amapSrc)) == Updated(Published(), d, d.Keys)
      ensures InstalledConfig(Published(), Updated(Published(), d, d.Keys), defs)
    {
      assert d.Keys <= CfgSlots();
      assert (cfg.rules + d).Keys == CfgSlots();
      JoinUpdate(FamilyTable(cfg, Dst) + FamilyTable(cfg, Icmp), cfg.rules, d);
    }

    method StageConfig(defs: seq<Request>, tx: IndexPoolTransaction) returns (err: Outcome, d: Table)
      requires Maps(cfg) && tx.pool == pool
      requires Staged(tx, Published()) && tx.reserved == [] && tx.retired == []
      requires Distinct(defs) && forall i :: 0 <= i < |defs| ==> defs[i].slot in CfgSlots()
      modifies tx, pool
      ensures Maps(cfg) && Published() == old(Published())
      ensures Staged(tx, old(Published())) && |tx.reserved| <= |defs|
      ensures err == Applied || (err == PoolEmpty && pool.free == [])
      ensures err == Applied ==> Fulfils(d, defs) && InUpdate(old(Published()), d, d.Keys, tx.reserved, tx.retired)
    {
      NothingYet(Published());
      RulesHeld(cfg);
      err, d := ReconcileRequests(tx, cfg.rules, defs, Published(), map[], {});
      NothingAdded(d);
      MapsKept(cfg);
    }

    lemma RulesHeld(c: FilterCfg)
      requires Maps(c)
      ensures HoldsRules(TableOf(c), c.rules)
    {
    }

    /** Applies the destination rules; without any rule the defaults allow, otherwise they block. */
    method SetDstRules(groups: seq<Group>, defaults: seq<Option<Choice>>, readable: bool, uploads: bool)
      returns (r: Outcome, ghost cause: BpfHashMaps.Errno)
      requires Valid() && |defaults| == MAX_DEFAULT_RULES
      requires forall i :: 0 <= i < |AllKeys(groups)| ==> AllKeys(groups)[i].DstSlot?
      modifies `cfg, pool, store, Inactive(cfg, Dst), Inactive(cfg, Dst).bpfMap
      ensures Valid()
      ensures r != Applied ==> cfg == old(cfg) && Published() == old(Published())
      ensures r == Applied ==> Configured(Published(), Dst, groups)
      ensures r == Applied ==> Defaulted(Published(), defaults, 8, 12, if groups == [] then Allow else Block)
      ensures r == Applied ==> OthersKept(old(Published()), Published(), Dst, 8, 12)
      ensures r == Applied ==> Inherits(old(Published()), Published())
      ensures Accounted(r, old(Published()), Published(), old(store.history), store.history)
      ensures r == Applied ==> !Repeats(AllKeys(groups))
      ensures r == Duplicate ==> Repeats(AllKeys(groups))
      ensures r == ConfigUnreadable <==> !readable
      ensures r == Applied ==> uploads
      ensures r == UploadFailed ==> !uploads
      ensures r == ReplaceFailed ==> Inactive(cfg, Dst).resyncRequired && cause != BpfHashMaps.E2BIG
      ensures |AllKeys(groups)| <= MAX_DST_RULES ==> r != PoolEmpty && r != TooMany
    {
      var action := if groups == [] then Allow else Block;
      ghost var t := Published();
      RequestKeys(groups);
      r, cause := SetRules(Dst, Requests(groups), DstDefaults(defaults, action), readable, uploads);
      DefaultRanges();
      if r == Applied { InstalledMeans(t, Published(), Dst, groups, defaults, DST_DEFAULTS, 8, 12, action); }
    }

    method SetIcmpRules(groups: seq<Group>, defaults: seq<Option<Choice>>, readable: bool, uploads: bool)
      returns (r: Outcome, ghost cause: BpfHashMaps.Errno)
      requires Valid() && |defaults| == MAX_DEFAULT_RULES
      requires forall i :: 0 <= i < |AllKeys(groups)| ==> AllKeys(groups)[i].IcmpSlot?
      modifies `cfg, pool, store, Inactive(cfg, Icmp), Inactive(cfg, Icmp).bpfMap
      ensures Valid()
      ensures r != Applied ==> cfg == old(cfg) && Published() == old(Published())
      ensures r == Applied ==> Configured(Published(), Icmp, groups)
      ensures r == Applied ==> Defaulted(Published(), defaults, 12, 14, Allow)
      ensures r == Applied ==> OthersKept(old(Published()), Published(), Icmp, 12, 14)
      ensures r == Applied ==> Inherits(old(Published()), Published())
      ensures Accounted(r, old(Published()), Published(), old(store.history), store.history)
      ensures r == Applied ==> !Repeats(AllKeys(groups))
      ensures r == Duplicate ==> Repeats(AllKeys(groups))
      ensures r == ConfigUnreadable <==> !readable
      ensures r == Applied ==> uploads
      ensures r == UploadFailed ==> !uploads
      ensures r == ReplaceFailed ==> Inactive(cfg, Icmp).resyncRequired && cause != BpfHashMaps.E2BIG
      ensures |AllKeys(groups)| <= MAX_ICMP_RULES ==> r != PoolEmpty && r != TooMany
    {
      ghost var t := Published();
      RequestKeys(groups);
      r, cause := SetRules(Icmp, Requests(groups), IcmpDefaults(defaults), readable, uploads);
      DefaultRanges();
      if r == Applied { InstalledMeans(t, Published(), Icmp, groups, defaults, ICMP_DEFAULTS, 12, 14, Allow); }
    }

    /** The upload of a source rule update: the source defaults and the index of the source maps, in
        one write. */
    method SetSrcDefaults(defaults: seq<Option<Choice>>, amapSrc: nat, readable: bool, uploads: bool) returns (r: Outcome)
      requires Valid() && |defaults| == MAX_DEFAULT_RULES
      modifies `cfg, pool, store
      ensures Valid()
      ensures r == if !readable then ConfigUnreadable else if uploads then Applied else UploadFailed
      ensures r != Applied ==> cfg == old(cfg) && Published() == old(Published())
      ensures r == Applied ==> cfg.amapSrc == amapSrc
      ensures r == Applied ==> Defaulted(Published(), defaults, 0, 8, Allow)
      ensures r == Applied ==> forall s :: !Within(s, 0, 8) ==> Lookup(Published(), s) == Lookup(old(Published()), s)
      ensures r == Applied ==> Inherits(old(Published()), Published())
      ensures Accounted(r, old(Published()), Published(), old(store.history), store.history)
    {
      ghost var t := Published();
      r := SetConfigRules(SrcDefaults(defaults), amapSrc, readable, uploads);
      if r == Applied { SourceDefaultsMean(t, Published(), defaults); }
    }

    method SetTcpFlagRule(limit: Option<nat>, flag: nat, readable: bool, uploads: bool) returns (r: Outcome)
      requires Valid() && flag < MAX_TCP_FLAG_RULES
      modifies `cfg, pool, store
      ensures Valid()
      ensures r == if !readable then ConfigUnreadable else if uploads then Applied else UploadFailed
      ensures r != Applied ==> cfg == old(cfg) && Published() == old(Published())
      ensures cfg.amapSrc == old(cfg.amapSrc)
      ensures r == Applied ==> FlagSlot(flag) in Published() && Does(Published()[FlagSlot(flag)], Choice(true, limit))
      ensures r == Applied ==> forall s :: s != FlagSlot(flag) ==> Lookup(Published(), s) == Lookup(old(Published()), s)
      ensures r == Applied ==> Inherits(old(Published()), Published())
      ensures Accounted(r, old(Published()), Published(), old(store.history), store.history)
    {
      assert FlagSlot(flag) in Flags(MAX_TCP_FLAG_RULES);
      ghost var t := Published();
      r := SetConfigRules([Request(FlagSlot(flag), ActionRule(true, limit))], cfg.amapSrc, readable, uploads);
      if r == Applied { FlagRuleMeans(t, Published(), flag, limit); }
    }
  }
}
