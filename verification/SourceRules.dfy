/** Publication of the source rules: six kernel maps in two copies, switched together with the source
    defaults by one configuration upload. */
module SourceRules {
  import opened Basics
  import opened RuleTables
  import opened RuleRequests
  import opened BpfHashMaps
  import opened ShadowHashMap
  import opened MapsManager

  /** IPv4 and IPv6 prefixes and ports, each for UDP and TCP. */
  const MAP_COUNT: nat := 6

  datatype SrcKey = Prefix4(len: nat, addr: nat) | Prefix6(len: nat, addr6: seq<nat>) | Port(port: nat)

  datatype SrcRule = SrcRule(action: nat, named: nat)

  type ShadowMap = BpfShadowHashMap<SrcKey, SrcRule>

  type RuleMap = map<SrcKey, SrcRule>

  /** Every map of a copy has its own shadow and its own kernel map. */
  ghost predicate Separate(copy: seq<ShadowMap>) {
    forall i, j :: 0 <= i < j < |copy| ==> copy[i] != copy[j] && copy[i].bpfMap != copy[j].bpfMap
  }

  ghost predicate Apart(a: seq<ShadowMap>, b: seq<ShadowMap>) {
    forall m, q :: m in a && q in b ==> m != q && m.bpfMap != q.bpfMap
  }

  ghost predicate AllValid(copy: seq<ShadowMap>)
    reads copy, set m | m in copy :: m.bpfMap
  {
    forall m :: m in copy ==> m.Valid()
  }

  /** The kernel maps of the copy hold exactly `rules`, and the shadows know it. */
  ghost predicate Holds(copy: seq<ShadowMap>, rules: seq<RuleMap>)
    reads copy, set m | m in copy :: m.bpfMap
  {
    && |copy| == |rules|
    && forall i :: 0 <= i < |copy| ==> copy[i] in copy && HoldsOne(copy[i], rules[i])
  }

  ghost predicate HoldsOne(m: ShadowMap, rules: RuleMap)
    reads m, m.bpfMap
  {
    !m.resyncRequired && m.snapshot == m.bpfMap.content == rules
  }

  /** Fills a copy map by map; the first failure leaves the rest unwritten. */
  method FillCopy(copy: seq<ShadowMap>, rules: seq<RuleMap>) returns (ok: bool, ghost cause: Errno)
    requires |copy| == |rules| && Separate(copy) && AllValid(copy)
    requires forall i :: 0 <= i < |copy| ==> |rules[i]| <= copy[i].bpfMap.capacity
    modifies copy, set m | m in copy :: m.bpfMap
    ensures AllValid(copy)
    ensures ok ==> Holds(copy, rules)
    ensures !ok ==> cause != E2BIG && exists m :: m in copy && m.resyncRequired
  {
    cause := Ok;
    var i := 0;
    while i < |copy|
      invariant 0 <= i <= |copy|
      invariant forall j :: 0 <= j < |copy| ==> copy[j].Valid()
      invariant forall j :: 0 <= j < i ==> HoldsOne(copy[j], rules[j])
    {
      ok, cause := copy[i].Replace(rules[i]);
      if !ok {
        assert copy[i] in copy;
        return;
      }
      i := i + 1;
    }
    ok := true;
  }

  /** Source maps and rule maps are of different types, so they are different objects. */
  lemma OtherObjects(m: BpfShadowHashMap<Slot, Rule>, q: ShadowMap)
    ensures m as object != q as object && m.bpfMap as object != q.bpfMap as object
  {
  }

  const MAX_SRC_IP_RULES: nat := 3_000_000
  const MAX_PORTS: nat := 65535

  /** Capacity of the maps of a copy: four of prefixes, two of ports. */
  function MaxSrcRules(i: nat): nat { if i < 4 then MAX_SRC_IP_RULES else MAX_PORTS }

  ghost predicate Sized(copy: seq<ShadowMap>) {
    forall i :: 0 <= i < |copy| ==> copy[i].bpfMap.capacity == MaxSrcRules(i)
  }

  class SourceMaps {
    const primary: seq<ShadowMap>
    const secondary: seq<ShadowMap>

    /** The copy in use under index `amap`, and the other one. */
    function Active(amap: nat): seq<ShadowMap> {
      if amap == 0 then primary else secondary
    }

    function Inactive(amap: nat): seq<ShadowMap> {
      if amap == 0 then secondary else primary
    }

    /** Under index `amap` the datapath sees `rules`, and in both copies the shadows are sound. */
    ghost predicate Publishes(amap: nat, rules: seq<RuleMap>)
      reads primary, secondary, (set m | m in primary + secondary :: m.bpfMap)
    {
      && |primary| == |secondary| == MAP_COUNT && Separate(primary) && Separate(secondary) && Apart(primary, secondary)
      && Sized(primary) && Sized(secondary)
      && AllValid(primary) && AllValid(secondary)
      && Holds(Active(amap), rules)
    }

    constructor (p: seq<ShadowMap>, s: seq<ShadowMap>, rules: seq<RuleMap>)
      requires |p| == |s| == MAP_COUNT && Separate(p) && Separate(s) && Apart(p, s) && Sized(p) && Sized(s)
      requires AllValid(p) && AllValid(s) && Holds(p, rules)
      ensures Publishes(0, rules)
    {
      primary, secondary := p, s;
    }

    /** Fills the copy that is not in use. */
    method FillInactive(amap: nat, rules: seq<RuleMap>, ghost before: seq<RuleMap>) returns (ok: bool, ghost cause: Errno)
      requires Publishes(amap, before) && |rules| == MAP_COUNT
      requires forall i :: 0 <= i < MAP_COUNT ==> |rules[i]| <= MaxSrcRules(i)
      modifies Inactive(amap), set m | m in Inactive(amap) :: m.bpfMap
      ensures Publishes(amap, before)
      ensures ok ==> Publishes(NextMapIdx(amap), rules)
      ensures !ok ==> cause != E2BIG && exists m :: m in Inactive(amap) && m.resyncRequired
    {
      ghost var active, other := Active(amap), Inactive(amap);
      assert Apart(active, other);
      assert forall m :: m in active ==> m.Valid();
      assert forall i :: 0 <= i < |active| ==> HoldsOne(active[i], before[i]);
      ok, cause := FillCopy(Inactive(amap), rules);
      forall m | m in active ensures m.Valid() {
        assert m !in other && m.bpfMap !in (set q | q in other :: q.bpfMap);
      }
      forall i | 0 <= i < |active| ensures HoldsOne(active[i], before[i]) {
        var m := active[i];
        assert m in active && m !in other && m.bpfMap !in (set q | q in other :: q.bpfMap);
      }
    }

    /** Replaces all six maps and the source defaults, or, at whatever step it fails, leaves all of them as
        the datapath sees them. */
    method SetSrcRules(mgr: BpfMapsManager, rules: seq<RuleMap>, defaults: seq<Option<Choice>>,
                       readable: bool, uploads: bool, ghost before: seq<RuleMap>)
      returns (r: Outcome, ghost cause: Errno)
      requires mgr.Valid() && |defaults| == MAX_DEFAULT_RULES
      requires Publishes(mgr.cfg.amapSrc, before) && |rules| == MAP_COUNT
      modifies mgr`cfg, mgr.pool, mgr.store
      modifies Inactive(mgr.cfg.amapSrc), set m | m in Inactive(mgr.cfg.amapSrc) :: m.bpfMap
      ensures mgr.Valid() && Publishes(mgr.cfg.amapSrc, if r == Applied then rules else before)
      ensures r != Applied ==> mgr.cfg == old(mgr.cfg) && mgr.Published() == old(mgr.Published())
      ensures r == Applied ==> Defaulted(mgr.Published(), defaults, 0, 8, Allow)
      ensures r == Applied ==>
        forall s :: !Within(s, 0, 8) ==> Lookup(mgr.Published(), s) == Lookup(old(mgr.Published()), s)
      ensures r == Applied ==> Inherits(old(mgr.Published()), mgr.Published())
      ensures Accounted(r, old(mgr.Published()), mgr.Published(), old(mgr.store.history), mgr.store.history)
      ensures r == TooMany <==> exists i :: 0 <= i < MAP_COUNT && |rules[i]| > MaxSrcRules(i)
      ensures r != TooMany ==> (r == ConfigUnreadable <==> !readable)
      ensures r == ReplaceFailed ==>
        cause != E2BIG && exists m :: m in Inactive(mgr.cfg.amapSrc) && m.resyncRequired
      ensures r == Applied ==> uploads
      ensures r == UploadFailed ==> !uploads
      ensures r in {Applied, TooMany, ConfigUnreadable, ReplaceFailed, UploadFailed}
    {
      ghost var t, h := mgr.Published(), mgr.store.history;
      KeepCounters(t, h, h);
      cause := Ok;
      var i := 0;
      while i < MAP_COUNT
        invariant 0 <= i <= MAP_COUNT && forall j :: 0 <= j < i ==> |rules[j]| <= MaxSrcRules(j)
      {
        if |rules[i]| > MaxSrcRules(i) {
          r := TooMany;
          return;
        }
        i := i + 1;
      }
      if !readable {
        r := ConfigUnreadable;
        return;
      }
      var ok;
      ok, cause := StageSource(mgr, rules, before);
      if !ok {
        r := ReplaceFailed;
        return;
      }
      r := Switch(mgr, defaults, uploads, rules, before);
    }

    method StageSource(mgr: BpfMapsManager, rules: seq<RuleMap>, ghost before: seq<RuleMap>)
      returns (ok: bool, ghost cause: Errno)
      requires mgr.Valid() && Publishes(mgr.cfg.amapSrc, before) && |rules| == MAP_COUNT
      requires forall i :: 0 <= i < MAP_COUNT ==> |rules[i]| <= MaxSrcRules(i)
      modifies Inactive(mgr.cfg.amapSrc), set m | m in Inactive(mgr.cfg.amapSrc) :: m.bpfMap
      ensures mgr.Valid() && mgr.Published() == old(mgr.Published()) && mgr.cfg == old(mgr.cfg)
      ensures mgr.store.history == old(mgr.store.history)
      ensures Publishes(mgr.cfg.amapSrc, before)
      ensures ok ==> Publishes(NextMapIdx(mgr.cfg.amapSrc), rules)
      ensures !ok ==> cause != E2BIG && exists m :: m in Inactive(mgr.cfg.amapSrc) && m.resyncRequired
    {
      ok, cause := FillBeside(mgr.cfg.amapSrc, rules, before, mgr.copies);
      mgr.ManagerKept();
    }

    method FillBeside(amap: nat, rules: seq<RuleMap>, ghost before: seq<RuleMap>,
                      ghost rest: seq<BpfShadowHashMap<Slot, Rule>>) returns (ok: bool, ghost cause: Errno)
      requires Publishes(amap, before) && |rules| == MAP_COUNT
      requires forall i :: 0 <= i < MAP_COUNT ==> |rules[i]| <= MaxSrcRules(i)
      modifies Inactive(amap), set m | m in Inactive(amap) :: m.bpfMap
      ensures Publishes(amap, before)
      ensures ok ==> Publishes(NextMapIdx(amap), rules)
      ensures !ok ==> cause != E2BIG && exists m :: m in Inactive(amap) && m.resyncRequired
      ensures forall k :: 0 <= k < |rest| ==> unchanged(rest[k]) && unchanged(rest[k].bpfMap)
    {
      ghost var other := Inactive(amap);
      ok, cause := FillInactive(amap, rules, before);
      forall k | 0 <= k < |rest| ensures unchanged(rest[k]) && unchanged(rest[k].bpfMap) {
        forall q | q in other { OtherObjects(rest[k], q); }
      }
    }

    /** Uploads the index of the filled copy together with the defaults. */
    method Switch(mgr: BpfMapsManager, defaults: seq<Option<Choice>>, uploads: bool,
                  ghost rules: seq<RuleMap>, ghost before: seq<RuleMap>) returns (r: Outcome)
      requires mgr.Valid() && |defaults| == MAX_DEFAULT_RULES
      requires Publishes(mgr.cfg.amapSrc, before) && Publishes(NextMapIdx(mgr.cfg.amapSrc), rules)
      modifies mgr`cfg, mgr.pool, mgr.store
      ensures mgr.Valid() && Publishes(mgr.cfg.amapSrc, if r == Applied then rules else before)
      ensures r == if uploads then Applied else UploadFailed
      ensures r != Applied ==> mgr.cfg == old(mgr.cfg) && mgr.Published() == old(mgr.Published())
      ensures r == Applied ==> Defaulted(mgr.Published(), defaults, 0, 8, Allow)
      ensures r == Applied ==>
        forall s :: !Within(s, 0, 8) ==> Lookup(mgr.Published(), s) == Lookup(old(mgr.Published()), s)
      ensures r == Applied ==> Inherits(old(mgr.Published()), mgr.Published())
      ensures Accounted(r, old(mgr.Published()), mgr.Published(), old(mgr.store.history), mgr.store.history)
    {
      var amap, next := mgr.cfg.amapSrc, NextMapIdx(mgr.cfg.amapSrc);
      r := mgr.SetSrcDefaults(defaults, next, true, uploads);
      assert Publishes(amap, before) && Publishes(next, rules);
    }
  }
}
