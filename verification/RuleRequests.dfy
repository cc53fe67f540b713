/** From configured rule groups and defaults to the rules wanted for each slot. */
module RuleRequests {
  import opened Basics
  import opened RuleTables

  const MAX_TCP_FLAG_RULES: nat := 2
  const MAX_DEFAULT_RULES: nat := 14

  /** The default slots of each rule kind, in the order they are reconciled. */
  const DST_DEFAULTS: seq<nat> := [8, 9, 10, 11]
  const ICMP_DEFAULTS: seq<nat> := [12, 13]
  const SRC_DEFAULTS: seq<nat> := [0, 2, 1, 3, 4, 6, 5, 7]

  /** A rule wanted for a slot; its bucket is still to be chosen. */
  datatype Request = Request(slot: Slot, rule: Rule)

  /** A configured action: allow or not, and if so under which named rate. */
  datatype Choice = Choice(allow: bool, ratelimit: Option<nat>)

  /** A named group of keys under one action. */
  datatype Group = Group(choice: Choice, keys: seq<Slot>)

  /** Two rules are the same except for the bucket. */
  predicate SameLimit(a: Rule, b: Rule) {
    a.action == b.action && (a.action == RateLimit ==> a.named == b.named)
  }

  predicate Distinct(rs: seq<Request>) {
    forall i, j :: 0 <= i < j < |rs| ==> rs[i].slot != rs[j].slot
  }

  function ActionRule(allow: bool, ratelimit: Option<nat>): Rule {
    if !allow then Rule(Block, INVALID_BUCKET, INVALID_NAMED)
    else match ratelimit
      case Some(named) => Rule(RateLimit, INVALID_BUCKET, named)
      case None => Rule(Allow, INVALID_BUCKET, INVALID_NAMED)
  }

  /** One request per key, group by group. */
  function Requests(groups: seq<Group>): seq<Request> {
    if groups == [] then []
    else
      var g := groups[0];
      seq(|g.keys|, i requires 0 <= i < |g.keys| =>
        Request(g.keys[i], ActionRule(g.choice.allow, g.choice.ratelimit))) + Requests(groups[1..])
  }

  // ----- what a configuration means, said without requests

  /** A rule does what was chosen: blocks exactly what is not allowed, limits exactly what is allowed under
      a named rate, by that rate, and allows the rest. */
  predicate Does(rule: Rule, c: Choice) {
    && (rule.action == Block <==> !c.allow)
    && (rule.action == RateLimit <==> c.allow && c.ratelimit.Some?)
    && (rule.action == Allow <==> c.allow && c.ratelimit == None)
    && (c.allow && c.ratelimit.Some? ==> rule.named == c.ratelimit.value)
  }

  /** All configured keys, in order. */
  function AllKeys(groups: seq<Group>): seq<Slot> {
    if groups == [] then [] else groups[0].keys + AllKeys(groups[1..])
  }

  predicate HasKey(groups: seq<Group>, s: Slot) {
    exists g :: 0 <= g < |groups| && s in groups[g].keys
  }

  predicate Repeats(keys: seq<Slot>) {
    exists i, j :: 0 <= i < j < |keys| && keys[i] == keys[j]
  }

  lemma {:induction false} RequestKeys(groups: seq<Group>)
    ensures |Requests(groups)| == |AllKeys(groups)|
    ensures forall i :: 0 <= i < |Requests(groups)| ==> Requests(groups)[i].slot == AllKeys(groups)[i]
    ensures Distinct(Requests(groups)) <==> !Repeats(AllKeys(groups))
    decreases |groups|
  {
    if groups != [] { RequestKeys(groups[1..]); }
  }

  lemma {:induction false} FirstRequests(groups: seq<Group>, i: nat)
    requires groups != [] && i < |groups[0].keys|
    ensures i < |Requests(groups)| && Requests(groups)[i].slot == groups[0].keys[i]
    ensures Does(Requests(groups)[i].rule, groups[0].choice)
  {
    var c := groups[0].choice;
    assert Requests(groups)[i] == Request(groups[0].keys[i], ActionRule(c.allow, c.ratelimit));
  }

  lemma {:induction false} LaterRequests(groups: seq<Group>, k: nat)
    requires groups != [] && k < |Requests(groups[1..])|
    ensures |groups[0].keys| + k < |Requests(groups)|
    ensures Requests(groups)[|groups[0].keys| + k] == Requests(groups[1..])[k]
  {
  }

  /** Every request comes from a group and does what that group chose. */
  lemma {:induction false} RequestFrom(groups: seq<Group>, i: nat) returns (g: nat)
    requires i < |Requests(groups)|
    ensures g < |groups| && Requests(groups)[i].slot in groups[g].keys && Does(Requests(groups)[i].rule, groups[g].choice)
    decreases |groups|
  {
    var n := |groups[0].keys|;
    if i < n {
      g := 0;
      FirstRequests(groups, i);
    } else {
      LaterRequests(groups, i - n);
      g := RequestFrom(groups[1..], i - n);
      g := g + 1;
    }
  }

  /** Every key of a group is requested, as the group chose. */
  lemma {:induction false} RequestOf(groups: seq<Group>, g: nat, s: Slot) returns (i: nat)
    requires g < |groups| && s in groups[g].keys
    ensures i < |Requests(groups)| && Requests(groups)[i].slot == s && Does(Requests(groups)[i].rule, groups[g].choice)
    decreases |groups|
  {
    if g == 0 {
      i :| 0 <= i < |groups[0].keys| && groups[0].keys[i] == s;
      FirstRequests(groups, i);
    } else {
      var k := RequestOf(groups[1..], g - 1, s);
      i := |groups[0].keys| + k;
      LaterRequests(groups, k);
    }
  }

  /** The configured default of each listed slot, or the built-in action. */
  function DefaultRequests(defaults: seq<Option<Choice>>, indices: seq<nat>, action: Action): (rs: seq<Request>)
    requires forall i :: 0 <= i < |indices| ==> indices[i] < |defaults|
    ensures |rs| == |indices|
  {
    seq(|indices|, i requires 0 <= i < |indices| =>
      Request(DefaultSlot(indices[i]),
              match defaults[indices[i]]
              case Some(c) => ActionRule(c.allow, c.ratelimit)
              case None => Rule(action, INVALID_BUCKET, INVALID_NAMED)))
  }

  function Flags(n: nat): set<Slot> { set i | 0 <= i < n :: FlagSlot(i) }

  function Defaults(n: nat): set<Slot> { set i | 0 <= i < n :: DefaultSlot(i) }

  function CfgSlots(): set<Slot> {
    Flags(MAX_TCP_FLAG_RULES) + Defaults(MAX_DEFAULT_RULES)
  }

  lemma DefaultRequestsFit(defaults: seq<Option<Choice>>, indices: seq<nat>, action: Action)
    requires |defaults| == MAX_DEFAULT_RULES
    requires forall i, j :: 0 <= i < j < |indices| ==> indices[i] != indices[j]
    requires forall i :: 0 <= i < |indices| ==> indices[i] < MAX_DEFAULT_RULES
    ensures
      var rs := DefaultRequests(defaults, indices, action);
      Distinct(rs) && forall i :: 0 <= i < |rs| ==> rs[i].slot in CfgSlots()
  {
    var rs := DefaultRequests(defaults, indices, action);
    forall i | 0 <= i < |rs| ensures rs[i].slot in CfgSlots() {
      assert DefaultSlot(indices[i]) in Defaults(MAX_DEFAULT_RULES);
    }
  }

  /** Distinct slots of the configuration entry. */
  ghost predicate ForConfig(rs: seq<Request>) {
    Distinct(rs) && forall i :: 0 <= i < |rs| ==> rs[i].slot in CfgSlots()
  }

  function DstDefaults(defaults: seq<Option<Choice>>, action: Action): (rs: seq<Request>)
    requires |defaults| == MAX_DEFAULT_RULES
    ensures ForConfig(rs) && |rs| == 4
  {
    DefaultRequestsFit(defaults, DST_DEFAULTS, action);
    DefaultRequests(defaults, DST_DEFAULTS, action)
  }

  function IcmpDefaults(defaults: seq<Option<Choice>>): (rs: seq<Request>)
    requires |defaults| == MAX_DEFAULT_RULES
    ensures ForConfig(rs) && |rs| == 2
  {
    DefaultRequestsFit(defaults, ICMP_DEFAULTS, Allow);
    DefaultRequests(defaults, ICMP_DEFAULTS, Allow)
  }

  function SrcDefaults(defaults: seq<Option<Choice>>): (rs: seq<Request>)
    requires |defaults| == MAX_DEFAULT_RULES
    ensures ForConfig(rs) && |rs| == 8
  {
    DefaultRequestsFit(defaults, SRC_DEFAULTS, Allow);
    DefaultRequests(defaults, SRC_DEFAULTS, Allow)
  }
}
