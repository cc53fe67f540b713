/** The table of named rate limits. Rules refer to a limit by its slot, so a slot must stay with its
    name across a configuration reload. */
module RatelimitTable {

  const MAX: nat := 255

  datatype State = Active | Inactive | ReadyToUse

  datatype Ratelimit = Ratelimit(alias: string, pps: nat, bps: nat, state: State)

  datatype Result = Found(index: nat) | NotFound

  /** What a name stands for. */
  datatype Entry = Entry(index: nat, pps: nat, bps: nat, active: bool)

  // ----- the table as a value

  ghost predicate Distinct(q: seq<nat>) {
    forall i, j :: 0 <= i < j < |q| ==> q[i] != q[j]
  }

  predicate Free(slots: seq<Ratelimit>, i: nat) {
    i < |slots| && slots[i].state == ReadyToUse
  }

  predicate FreeOk(slots: seq<Ratelimit>, free: seq<nat>, i: nat) {
    i in free <==> Free(slots, i)
  }

  ghost predicate FreeListed(slots: seq<Ratelimit>, free: seq<nat>) {
    Distinct(free) && forall i :: FreeOk(slots, free, i)
  }

  predicate NameOk(slots: seq<Ratelimit>, names: map<string, nat>, n: string) {
    n in names ==> names[n] < |slots| && slots[names[n]].state != ReadyToUse && slots[names[n]].alias == n
  }

  predicate SlotOk(slots: seq<Ratelimit>, names: map<string, nat>, i: nat) {
    i < |slots| && slots[i].state != ReadyToUse ==> slots[i].alias in names && names[slots[i].alias] == i
  }

  ghost predicate Named(slots: seq<Ratelimit>, names: map<string, nat>) {
    (forall n :: NameOk(slots, names, n)) && (forall i :: SlotOk(slots, names, i))
  }

  function EntryOf(slots: seq<Ratelimit>, i: nat): Entry {
    if i < |slots| then Entry(i, slots[i].pps, slots[i].bps, slots[i].state == Active) else Entry(i, 0, 0, false)
  }

  ghost function View(slots: seq<Ratelimit>, names: map<string, nat>): map<string, Entry> {
    map n | n in names :: EntryOf(slots, names[n])
  }

  /** The slots determine the name index. */
  lemma NamesUnique(slots: seq<Ratelimit>, a: map<string, nat>, b: map<string, nat>)
    requires Named(slots, a) && Named(slots, b)
    ensures a == b
  {
    forall n ensures n in a ==> n in b && a[n] == b[n] {
      assert NameOk(slots, a, n) && (n in a ==> SlotOk(slots, b, a[n]));
    }
    forall n ensures n in b ==> n in a {
      assert NameOk(slots, b, n) && (n in b ==> SlotOk(slots, a, b[n]));
    }
  }

  ghost predicate Consistent(slots: seq<Ratelimit>, free: seq<nat>, names: map<string, nat>) {
    |slots| == MAX && FreeListed(slots, free) && Named(slots, names) && |names| + |free| == MAX
  }

  lemma FreeTaken(slots: seq<Ratelimit>, free: seq<nat>, l: Ratelimit)
    requires FreeListed(slots, free) && free != [] && l.state != ReadyToUse
    ensures Free(slots, free[0]) && FreeListed(slots[free[0] := l], free[1..])
  {
    var i, rest := free[0], free[1..];
    assert i in free && FreeOk(slots, free, i);
    var slots' := slots[i := l];
    forall j ensures FreeOk(slots', rest, j) {
      assert FreeOk(slots, free, j);
      assert free == [i] + rest;
      assert i !in rest;
    }
  }

  lemma NotInUse(slots: seq<Ratelimit>, names: map<string, nat>, i: nat)
    requires Named(slots, names) && Free(slots, i)
    ensures forall n :: n in names ==> names[n] != i
  {
    forall n | n in names ensures names[n] != i {
      assert NameOk(slots, names, n);
    }
  }

  lemma NameAdded(slots: seq<Ratelimit>, names: map<string, nat>, i: nat, l: Ratelimit)
    requires Named(slots, names) && Free(slots, i) && l.alias !in names && l.state != ReadyToUse
    ensures Named(slots[i := l], names[l.alias := i])
    ensures View(slots[i := l], names[l.alias := i]) == View(slots, names)[l.alias := EntryOf(slots[i := l], i)]
  {
    var slots', names' := slots[i := l], names[l.alias := i];
    forall n ensures NameOk(slots', names', n) && (n in names ==> EntryOf(slots', names[n]) == EntryOf(slots, names[n])) {
      assert NameOk(slots, names, n);
    }
    forall j ensures SlotOk(slots', names', j) {
      assert SlotOk(slots, names, j);
    }
  }

  /** A slot in use changes, but not its name. */
  lemma SlotChanged(slots: seq<Ratelimit>, free: seq<nat>, names: map<string, nat>, i: nat, l: Ratelimit)
    requires Consistent(slots, free, names) && i < MAX && slots[i].state != ReadyToUse
    requires l.alias == slots[i].alias && l.state != ReadyToUse
    ensures Consistent(slots[i := l], free, names)
    ensures View(slots[i := l], names) == View(slots, names)[l.alias := EntryOf(slots[i := l], i)]
  {
    var slots' := slots[i := l];
    forall j ensures FreeOk(slots', free, j) && SlotOk(slots', names, j) {
      assert FreeOk(slots, free, j) && SlotOk(slots, names, j);
    }
    assert SlotOk(slots, names, i);
    forall n ensures NameOk(slots', names, n)
      && (n in names && n != l.alias ==> EntryOf(slots', names[n]) == EntryOf(slots, names[n]))
    {
      assert NameOk(slots, names, n);
    }
  }

  lemma SlotFreed(slots: seq<Ratelimit>, free: seq<nat>, names: map<string, nat>, i: nat)
    requires Consistent(slots, free, names) && i < MAX && slots[i].state == Inactive
    ensures Consistent(slots[i := slots[i].(state := ReadyToUse)], free + [i], names - {slots[i].alias})
    ensures View(slots[i := slots[i].(state := ReadyToUse)], names - {slots[i].alias})
            == View(slots, names) - {slots[i].alias}
  {
    var l := slots[i];
    var slots', free', names' := slots[i := l.(state := ReadyToUse)], free + [i], names - {l.alias};
    assert FreeOk(slots, free, i) && SlotOk(slots, names, i);
    assert names'.Keys == names.Keys - {l.alias};
    forall j: nat ensures FreeOk(slots', free', j) && SlotOk(slots', names', j) {
      assert FreeOk(slots, free, j) && SlotOk(slots, names, j);
      if j < MAX && j != i && slots[j].state != ReadyToUse {
        assert slots[j].alias != l.alias;
      }
    }
    forall n ensures NameOk(slots', names', n)
      && (n in names' ==> EntryOf(slots', names[n]) == EntryOf(slots, names[n]))
    {
      assert NameOk(slots, names, n);
    }
  }

  /** Entries below slot `i` switched off. */
  ghost function OffBelow(v: map<string, Entry>, i: nat): map<string, Entry> {
    map n | n in v :: if v[n].index < i then v[n].(active := false) else v[n]
  }

  ghost function AllOff(v: map<string, Entry>): map<string, Entry> {
    map n | n in v :: v[n].(active := false)
  }

  /** Entries below slot `i` only if active. */
  ghost function PurgedBelow(v: map<string, Entry>, i: nat): map<string, Entry> {
    map n | n in v && (v[n].index >= i || v[n].active) :: v[n]
  }

  ghost function ActiveOnly(v: map<string, Entry>): map<string, Entry> {
    map n | n in v && v[n].active :: v[n]
  }

  lemma ViewBound(slots: seq<Ratelimit>, names: map<string, nat>)
    requires |slots| == MAX && Named(slots, names)
    ensures OffBelow(View(slots, names), 0) == View(slots, names)
    ensures OffBelow(View(slots, names), MAX) == AllOff(View(slots, names))
    ensures PurgedBelow(View(slots, names), 0) == View(slots, names)
    ensures PurgedBelow(View(slots, names), MAX) == ActiveOnly(View(slots, names))
  {
    forall n ensures n in names ==> names[n] < MAX {
      assert NameOk(slots, names, n);
    }
  }

  // ----- what an update message means

  datatype Rule = Rule(alias: string, pps: nat, bps: nat, delete: bool)

  /** A named limit, whatever its slot. */
  datatype Limit = Limit(pps: nat, bps: nat, active: bool)

  ghost function Meaning(v: map<string, Entry>): map<string, Limit> {
    map n | n in v :: Limit(v[n].pps, v[n].bps, v[n].active)
  }

  predicate Applies(m: map<string, Limit>, r: Rule) {
    r.alias in m || (!r.delete && |m| < MAX)
  }

  function ApplyOne(m: map<string, Limit>, r: Rule): map<string, Limit> {
    if !r.delete then m[r.alias := Limit(r.pps, r.bps, true)]
    else if r.alias in m then m[r.alias := m[r.alias].(active := false)] else m
  }

  function Apply(m: map<string, Limit>, rules: seq<Rule>): map<string, Limit> {
    if rules == [] then m else ApplyOne(Apply(m, rules[..|rules| - 1]), rules[|rules| - 1])
  }

  predicate Applicable(m: map<string, Limit>, rules: seq<Rule>) {
    rules == [] || (Applicable(m, rules[..|rules| - 1]) && Applies(Apply(m, rules[..|rules| - 1]), rules[|rules| - 1]))
  }

  lemma ApplyWhole(m: map<string, Limit>, rules: seq<Rule>)
    ensures Apply(m, rules[..|rules|]) == Apply(m, rules) && Applicable(m, rules[..|rules|]) == Applicable(m, rules)
    ensures Apply(m, rules[..0]) == m && Applicable(m, rules[..0])
  {
    assert rules[..|rules|] == rules;
  }

  lemma ApplyNext(m: map<string, Limit>, rules: seq<Rule>, i: nat)
    requires i < |rules|
    ensures Apply(m, rules[..i + 1]) == ApplyOne(Apply(m, rules[..i]), rules[i])
    ensures Applicable(m, rules[..i + 1]) <==> Applicable(m, rules[..i]) && Applies(Apply(m, rules[..i]), rules[i])
  {
    assert rules[..i + 1][..i] == rules[..i];
  }

  ghost predicate SlotsKept(v: map<string, Entry>, w: map<string, Entry>) {
    forall n :: n in v && n in w ==> v[n].index == w[n].index
  }

  /** No name is dropped, and none changes its slot. */
  ghost predicate Grew(v: map<string, Entry>, w: map<string, Entry>) {
    v.Keys <= w.Keys && SlotsKept(v, w)
  }

  /** The first `i` rules have turned `v`, which means `m`, into `w`. */
  ghost predicate Reached(v: map<string, Entry>, m: map<string, Limit>, rules: seq<Rule>, i: nat, w: map<string, Entry>)
    requires i <= |rules|
  {
    Applicable(m, rules[..i]) && Grew(v, w) && Meaning(w) == Apply(m, rules[..i])
  }

  lemma GrewFurther(a: map<string, Entry>, b: map<string, Entry>, c: map<string, Entry>)
    requires Grew(a, b) && Grew(b, c)
    ensures Grew(a, c)
  {
  }

  lemma PutMeans(v: map<string, Entry>, n: string, e: Entry)
    requires n in v ==> v[n].index == e.index
    ensures Grew(v, v[n := e]) && |Meaning(v)| == |v|
    ensures Meaning(v[n := e]) == Meaning(v)[n := Limit(e.pps, e.bps, e.active)]
  {
    assert Meaning(v).Keys == v.Keys;
  }

  /** The last rule for a name decides. */
  lemma {:induction false} LastRuleDecides(m: map<string, Limit>, rules: seq<Rule>, n: string, i: nat)
    requires i < |rules| && rules[i].alias == n && Applicable(m, rules)
    requires forall j :: i < j < |rules| ==> rules[j].alias != n
    ensures n in Apply(m, rules)
    ensures if rules[i].delete then !Apply(m, rules)[n].active
            else Apply(m, rules)[n] == Limit(rules[i].pps, rules[i].bps, true)
    decreases |rules|
  {
    var k := |rules| - 1;
    if i < k {
      LastRuleDecides(m, rules[..k], n, i);
    }
  }

  /** Names no rule mentions are left as they were. */
  lemma {:induction false} UnmentionedKept(m: map<string, Limit>, rules: seq<Rule>, n: string)
    requires forall j :: 0 <= j < |rules| ==> rules[j].alias != n
    ensures n in Apply(m, rules) <==> n in m
    ensures n in m ==> Apply(m, rules)[n] == m[n]
    decreases |rules|
  {
    if rules != [] {
      UnmentionedKept(m, rules[..|rules| - 1], n);
    }
  }

  /** The names that rules set. */
  function Upserted(rules: seq<Rule>): set<string> {
    set i | 0 <= i < |rules| && !rules[i].delete :: rules[i].alias
  }

  lemma UpsertedPush(rules: seq<Rule>)
    requires rules != []
    ensures var r := rules[|rules| - 1];
      Upserted(rules) == Upserted(rules[..|rules| - 1]) + if r.delete then {} else {r.alias}
  {
    var k := |rules| - 1;
    forall n | n in Upserted(rules) ensures n in Upserted(rules[..k]) + if rules[k].delete then {} else {rules[k].alias} {
      var i :| 0 <= i < |rules| && !rules[i].delete && rules[i].alias == n;
      if i < k { assert rules[..k][i].alias == n; }
    }
    forall n | n in Upserted(rules[..k]) ensures n in Upserted(rules) {
      var i :| 0 <= i < k && !rules[..k][i].delete && rules[..k][i].alias == n;
      assert rules[i].alias == n;
    }
  }

  /** A deletion keeps the name in its slot until the reload ends. */
  lemma {:induction false} ApplyKeys(m: map<string, Limit>, rules: seq<Rule>)
    ensures Apply(m, rules).Keys == m.Keys + Upserted(rules)
    decreases |rules|
  {
    if rules != [] {
      var k := |rules| - 1;
      ApplyKeys(m, rules[..k]);
      UpsertedPush(rules);
      var r, p := rules[k], Apply(m, rules[..k]);
      assert Apply(m, rules).Keys == p.Keys + if r.delete then {} else {r.alias};
    }
  }

  /** Rule `i` deletes only a name that was there before the message or that an earlier rule set. */
  predicate Known(names: set<string>, rules: seq<Rule>, i: nat)
    requires i < |rules|
  {
    rules[i].delete ==> rules[i].alias in names || rules[i].alias in Upserted(rules[..i])
  }

  predicate DeletesKnown(names: set<string>, rules: seq<Rule>) {
    forall i :: 0 <= i < |rules| ==> Known(names, rules, i)
  }

  lemma DeletesKnownPush(m: map<string, Limit>, rules: seq<Rule>)
    requires rules != []
    ensures var k := |rules| - 1;
      DeletesKnown(m.Keys, rules) <==> DeletesKnown(m.Keys, rules[..k]) && (rules[k].delete ==> rules[k].alias in Apply(m, rules[..k]))
  {
    var k := |rules| - 1;
    ApplyKeys(m, rules[..k]);
    forall i | 0 <= i < k ensures Known(m.Keys, rules[..k], i) <==> Known(m.Keys, rules, i) {
      assert rules[..k][..i] == rules[..i];
    }
    assert Known(m.Keys, rules, k) <==> (rules[k].delete ==> rules[k].alias in Apply(m, rules[..k]));
  }

  /** A message can be applied exactly when every deletion names a known limit and the names before the
      message and those it sets fit together: limits about to be given up still take their slots. */
  lemma {:induction false} ApplicableIff(m: map<string, Limit>, rules: seq<Rule>)
    requires |m| <= MAX
    ensures Applicable(m, rules) <==> DeletesKnown(m.Keys, rules) && |m.Keys + Upserted(rules)| <= MAX
    decreases |rules|
  {
    if rules == [] {
      assert m.Keys + Upserted(rules) == m.Keys;
    } else {
      var k := |rules| - 1;
      var pre := rules[..k];
      ApplicableIff(m, pre);
      ApplyKeys(m, pre);
      UpsertedPush(rules);
      FitsNext(Apply(m, pre), rules[k], m.Keys + Upserted(rules));
      DeletesKnownPush(m, rules);
    }
  }

  lemma FitsNext(p: map<string, Limit>, r: Rule, all: set<string>)
    requires all == p.Keys + if r.delete then {} else {r.alias}
    ensures |all| <= MAX && (!r.delete || r.alias in p) <==> |p.Keys| <= MAX && Applies(p, r)
  {
    if r.delete || r.alias in p { assert all == p.Keys; }
  }

  /** A full table refuses a new name even when the same message gives another name up. */
  lemma FullTableRefuses(m: map<string, Limit>, gone: string, wanted: Rule)
    requires |m| == MAX && gone in m && !wanted.delete && wanted.alias !in m
    ensures !Applicable(m, [Rule(gone, 0, 0, true), wanted])
  {
    var rules := [Rule(gone, 0, 0, true), wanted];
    ApplicableIff(m, rules);
    assert rules[1].alias in Upserted(rules);
    assert m.Keys + {wanted.alias} <= m.Keys + Upserted(rules);
    MoreNames(m.Keys, wanted.alias, m.Keys + Upserted(rules));
  }

  lemma MoreNames(a: set<string>, n: string, b: set<string>)
    requires a + {n} <= b && n !in a
    ensures |b| > |a|
  {
    assert b == a + (b - a) && n in b - a;
  }

  /** Deleting a name nobody has set is refused. */
  lemma UnknownDeleteRefused(m: map<string, Limit>, n: string)
    requires |m| <= MAX && n !in m
    ensures !Applicable(m, [Rule(n, 0, 0, true)])
  {
    var rules := [Rule(n, 0, 0, true)];
    ApplicableIff(m, rules);
    assert !Known(m.Keys, rules, 0);
  }

  ghost function StartOf(v: map<string, Entry>, patch: bool): map<string, Entry> {
    if patch then v else AllOff(v)
  }

  ghost function InForce(m: map<string, Limit>): map<string, Limit> {
    map n | n in m && m[n].active :: m[n]
  }

  predicate LastMention(rules: seq<Rule>, n: string, i: nat) {
    i < |rules| && rules[i].alias == n && forall j :: i < j < |rules| ==> rules[j].alias != n
  }

  predicate Mentioned(rules: seq<Rule>, n: string) {
    exists i :: 0 <= i < |rules| && rules[i].alias == n
  }

  /** What an applied message makes of name `n`: its last rule sets or drops it; without a rule a patch
      keeps it if it is in force, and a full message drops it. */
  ghost predicate Settled(v: map<string, Entry>, w: map<string, Entry>, patch: bool, rules: seq<Rule>, n: string) {
    && (forall i: nat :: LastMention(rules, n, i) ==>
          if rules[i].delete then n !in w
          else n in w && w[n].pps == rules[i].pps && w[n].bps == rules[i].bps && w[n].active)
    && (!Mentioned(rules, n) && patch ==>
          (n in w <==> n in v && v[n].active) && (n in w ==> w[n].pps == v[n].pps && w[n].bps == v[n].bps && w[n].active))
    && (!Mentioned(rules, n) && !patch ==> n !in w)
  }

  lemma EveryNameSettled(v: map<string, Entry>, w: map<string, Entry>, patch: bool, rules: seq<Rule>, n: string)
    requires Applicable(Meaning(StartOf(v, patch)), rules)
    requires Meaning(w) == InForce(Apply(Meaning(StartOf(v, patch)), rules))
    ensures Settled(v, w, patch, rules, n)
  {
    var m := Meaning(StartOf(v, patch));
    NameInForce(w, Apply(m, rules), n);
    forall i: nat | LastMention(rules, n, i)
      ensures if rules[i].delete then n !in w
              else n in w && w[n].pps == rules[i].pps && w[n].bps == rules[i].bps && w[n].active
    {
      LastRuleDecides(m, rules, n, i);
    }
    if !Mentioned(rules, n) { UnmentionedKept(m, rules, n); }
  }

  lemma NameInForce(w: map<string, Entry>, m: map<string, Limit>, n: string)
    requires Meaning(w) == InForce(m)
    ensures n in w <==> n in m && m[n].active
    ensures n in w ==> m[n] == Limit(w[n].pps, w[n].bps, w[n].active)
  {
    assert n in w <==> n in Meaning(w);
    assert n in w ==> Meaning(w)[n] == Limit(w[n].pps, w[n].bps, w[n].active);
  }

  lemma ViewSize(slots: seq<Ratelimit>, names: map<string, nat>)
    ensures |View(slots, names)| == |names|
  {
    assert View(slots, names).Keys == names.Keys;
  }

  /** Whether a message can be applied does not depend on the limits, only on the names. */
  lemma NamesDecide(v: map<string, Entry>, patch: bool, rules: seq<Rule>)
    requires |v| <= MAX
    ensures Applicable(Meaning(StartOf(v, patch)), rules) <==>
            DeletesKnown(v.Keys, rules) && |v.Keys + Upserted(rules)| <= MAX
  {
    var m := Meaning(StartOf(v, patch));
    assert m.Keys == v.Keys;
    assert |m| == |m.Keys| && |v| == |v.Keys|;
    ApplicableIff(m, rules);
  }

  class Ratelimits {
    const slots: array<Ratelimit>
    var names: map<string, nat>
    var free: seq<nat>

    ghost predicate Valid()
      reads this, slots
    {
      Consistent(slots[..], free, names)
    }

    ghost function Limits(): map<string, Entry>
      requires Valid()
      reads this, slots
    {
      View(slots[..], names)
    }

    constructor ()
      ensures Valid() && fresh(slots) && Limits() == map[]
    {
      slots := new Ratelimit[MAX](i => Ratelimit("", 0, 0, ReadyToUse));
      names := map[];
      free := [];
      new;
      var i := 0;
      while i < MAX
        invariant 0 <= i <= MAX && |free| == i && (forall j :: 0 <= j < i ==> free[j] == j)
        invariant fresh(slots) && names == map[] && slots.Length == MAX
        invariant forall j :: 0 <= j < MAX ==> slots[j] == Ratelimit("", 0, 0, ReadyToUse)
      {
        free := free + [i];
        i := i + 1;
      }
      assert forall k: nat :: Free(slots[..], k) ==> free[k] == k;
    }

    constructor Copy(other: Ratelimits)
      requires other.Valid()
      ensures Valid() && fresh(slots) && Limits() == other.Limits() && free == other.free
    {
      var from := other.slots;
      slots := new Ratelimit[MAX](i requires 0 <= i < from.Length reads from => from[i]);
      names, free := other.names, other.free;
      new;
      assert slots[..] == other.slots[..];
    }

    /** The slot of an active limit. */
    method GetActiveIndex(name: string) returns (r: Result)
      requires Valid()
      ensures r == if name in Limits() && Limits()[name].active then Found(Limits()[name].index) else NotFound
    {
      if name in names {
        var index := names[name];
        assert NameOk(slots[..], names, name);
        if slots[index].state == Active { return Found(index); }
      }
      return NotFound;
    }

    /** Sets the limit of a name, in the slot the name already has or in the next free one. It fails only
        for a new name in a full table. */
    method Upsert(name: string, pps: nat, bps: nat) returns (ok: bool)
      requires Valid()
      modifies this`names, this`free, slots
      ensures Valid() && ok == old(name in Limits() || |Limits()| < MAX)
      ensures !ok ==> Limits() == old(Limits())
      ensures ok && name in old(Limits()) ==>
        Limits() == old(Limits())[name := Entry(old(Limits()[name].index), pps, bps, true)] && free == old(free)
      ensures ok && name !in old(Limits()) ==>
        old(free) != [] && Limits() == old(Limits())[name := Entry(old(free[0]), pps, bps, true)]
        && forall n :: n in old(Limits()) ==> old(Limits())[n].index != old(free[0])
    {
      assert Limits().Keys == names.Keys;
      ghost var was := slots[..];
      if name in names {
        assert NameOk(was, names, name);
        var i := names[name];
        var l := slots[i].(pps := pps, bps := bps, state := Active);
        SlotChanged(was, free, names, i, l);
        slots[i] := l;
        assert slots[..] == was[i := l];
        return true;
      }
      if |free| == 0 { return false; }
      var index := free[0];
      var l := Ratelimit(name, pps, bps, Active);
      FreeTaken(was, free, l);
      NotInUse(was, names, index);
      NameAdded(was, names, index, l);
      assert names[name := index].Keys == names.Keys + {name};
      free := free[1..];
      slots[index] := l;
      assert slots[..] == was[index := l];
      names := names[name := index];
      return true;
    }

    method ApplyRule(r: Rule) returns (ok: bool)
      requires Valid()
      modifies this`names, this`free, slots
      ensures Valid() && ok == Applies(Meaning(old(Limits())), r)
      ensures Grew(old(Limits()), Limits())
      ensures ok ==> Meaning(Limits()) == ApplyOne(Meaning(old(Limits())), r)
    {
      var n := r.alias;
      ghost var v := Limits();
      assert Meaning(v).Keys == v.Keys && |Meaning(v)| == |v|;
      if r.delete {
        ok := Inactivate(n);
        if ok { PutMeans(v, n, v[n].(active := false)); }
      } else {
        ghost var index := if n in v then v[n].index else if free != [] then free[0] else 0;
        ok := Upsert(n, r.pps, r.bps);
        PutMeans(v, n, Entry(index, r.pps, r.bps, true));
      }
    }

    method ApplyAt(rules: seq<Rule>, i: nat, ghost v: map<string, Entry>, ghost m: map<string, Limit>) returns (ok: bool)
      requires Valid() && i < |rules| && Reached(v, m, rules, i, Limits())
      modifies this`names, this`free, slots
      ensures Valid() && Grew(v, Limits())
      ensures ok ==> Reached(v, m, rules, i + 1, Limits())
      ensures !ok ==> !Applicable(m, rules)
    {
      ApplyNext(m, rules, i);
      ghost var u := Limits();
      ok := ApplyRule(rules[i]);
      GrewFurther(v, u, Limits());
      if !ok { NotApplicable(m, rules, i + 1); }
    }

    /** The rules of an update message, up to the first that fails. */
    method PrepareRatelimits(rules: seq<Rule>) returns (ok: bool)
      requires Valid()
      modifies this`names, this`free, slots
      ensures Valid() && ok == Applicable(Meaning(old(Limits())), rules)
      ensures Grew(old(Limits()), Limits())
      ensures ok ==> Meaning(Limits()) == Apply(Meaning(old(Limits())), rules)
    {
      ApplyWhole(Meaning(Limits()), rules);
      ok := ApplyAll(rules, Limits(), Meaning(Limits()));
    }

    method ApplyAll(rules: seq<Rule>, ghost v: map<string, Entry>, ghost m: map<string, Limit>) returns (ok: bool)
      requires Valid() && Reached(v, m, rules, 0, Limits())
      modifies this`names, this`free, slots
      ensures Valid() && Grew(v, Limits())
      ensures ok ==> Reached(v, m, rules, |rules|, Limits())
      ensures !ok ==> !Applicable(m, rules)
    {
      var i := 0;
      while i < |rules|
        invariant 0 <= i <= |rules| && Valid() && Reached(v, m, rules, i, Limits())
      {
        ok := ApplyAt(rules, i, v, m);
        if !ok { return; }
        i := i + 1;
      }
      return true;
    }

    method Inactivate(name: string) returns (ok: bool)
      requires Valid()
      modifies slots
      ensures Valid() && ok == (name in old(Limits()))
      ensures ok ==> Limits() == old(Limits())[name := old(Limits())[name].(active := false)]
      ensures !ok ==> Limits() == old(Limits())
    {
      assert Limits().Keys == names.Keys;
      if name !in names { return false; }
      ghost var was := slots[..];
      var i := names[name];
      assert NameOk(was, names, name);
      var l := slots[i].(state := Inactive);
      SlotChanged(was, free, names, i, l);
      slots[i] := l;
      assert slots[..] == was[i := l];
      return true;
    }

    /** Switches every limit off; names and slots stay. */
    method InactivateAll()
      requires Valid()
      modifies slots
      ensures Valid() && Limits() == AllOff(old(Limits()))
    {
      ghost var v := Limits();
      ViewBound(slots[..], names);
      SwitchAllOff(v);
    }

    method SwitchAllOff(ghost v: map<string, Entry>)
      requires Valid() && Limits() == OffBelow(v, 0)
      modifies slots
      ensures Valid() && Limits() == OffBelow(v, MAX)
    {
      var i := 0;
      while i < MAX
        invariant 0 <= i <= MAX && Valid() && Limits() == OffBelow(v, i)
      {
        SwitchOff(i, v);
        i := i + 1;
      }
    }

    method SwitchOff(i: nat, ghost v: map<string, Entry>)
      requires Valid() && i < MAX && Limits() == OffBelow(v, i)
      modifies slots
      ensures Valid() && Limits() == OffBelow(v, i + 1)
    {
      ghost var was := slots[..];
      if slots[i].state == Active {
        var l := slots[i].(state := Inactive);
        SlotChanged(was, free, names, i, l);
        slots[i] := l;
        assert slots[..] == was[i := l];
      }
      SwitchedOff(was, names, slots[..], v, i);
    }

    /** Gives up the slots and names of all inactive limits. */
    method FreeInactive()
      requires Valid()
      modifies this`names, this`free, slots
      ensures Valid() && Limits() == ActiveOnly(old(Limits()))
    {
      ghost var v := Limits();
      ViewBound(slots[..], names);
      PurgeAll(v);
    }

    method PurgeAll(ghost v: map<string, Entry>)
      requires Valid() && Limits() == PurgedBelow(v, 0)
      modifies this`names, this`free, slots
      ensures Valid() && Limits() == PurgedBelow(v, MAX)
    {
      var i := 0;
      while i < MAX
        invariant 0 <= i <= MAX && Valid() && Limits() == PurgedBelow(v, i)
      {
        Purge(i, v);
        i := i + 1;
      }
    }

    method Purge(i: nat, ghost v: map<string, Entry>)
      requires Valid() && i < MAX && Limits() == PurgedBelow(v, i)
      modifies this`names, this`free, slots
      ensures Valid() && Limits() == PurgedBelow(v, i + 1)
    {
      ghost var was, wasNames := slots[..], names;
      if slots[i].state == Inactive {
        var l := slots[i].(state := ReadyToUse);
        SlotFreed(was, free, names, i);
        slots[i] := l;
        assert slots[..] == was[i := l];
        names := names - {l.alias};
        free := free + [i];
      }
      Purged(was, wasNames, v, i);
    }

    /** Takes over another table; the name index is built anew from the slots. */
    method MoveFrom(other: Ratelimits)
      requires other.Valid() && other != this && other.slots != slots && slots.Length == MAX
      modifies this, slots
      ensures Valid() && Limits() == other.Limits() && free == other.free
    {
      ghost var from := other.slots[..];
      forall i | 0 <= i < MAX { slots[i] := other.slots[i]; }
      assert slots[..] == from && other.slots[..] == from;
      free := other.free;
      RefillNameToIndex(other.names);
    }

    /** An update message as a whole: a copy takes the changes, replaces the table once everything has been
        uploaded, and only then gives up unused slots. A name that stays keeps its slot. */
    method Update(patch: bool, rules: seq<Rule>, uploaded: bool) returns (ok: bool)
      requires Valid()
      modifies this, slots
      ensures Valid() && SlotsKept(old(Limits()), Limits())
      ensures var names := old(Limits()).Keys;
        ok <==> DeletesKnown(names, rules) && |names + Upserted(rules)| <= MAX && uploaded
      ensures ok ==> forall n :: Settled(old(Limits()), Limits(), patch, rules, n)
      ensures !ok ==> Limits() == old(Limits())
    {
      ghost var v := Limits();
      ViewSize(slots[..], names);
      NamesDecide(v, patch, rules);
      ok := UpdateMeaning(patch, rules, uploaded);
      if ok {
        forall n ensures Settled(v, Limits(), patch, rules, n) { EveryNameSettled(v, Limits(), patch, rules, n); }
      }
    }

    method UpdateMeaning(patch: bool, rules: seq<Rule>, uploaded: bool) returns (ok: bool)
      requires Valid()
      modifies this, slots
      ensures Valid() && SlotsKept(old(Limits()), Limits())
      ensures ok == (Applicable(Meaning(StartOf(old(Limits()), patch)), rules) && uploaded)
      ensures ok ==> Meaning(Limits()) == InForce(Apply(Meaning(StartOf(old(Limits()), patch)), rules))
      ensures !ok ==> Limits() == old(Limits())
    {
      ghost var v := Limits();
      var next := new Ratelimits.Copy(this);
      if !patch { next.InactivateAll(); }
      ok := next.PrepareRatelimits(rules);
      if !ok || !uploaded { return false; }
      ghost var w := next.Limits();
      UpdateMeans(v, patch, w);
      MoveFrom(next);
      FreeInactive();
    }

    method RefillNameToIndex(ghost was: map<string, nat>)
      requires slots.Length == MAX && Named(slots[..], was)
      modifies this`names
      ensures names == was
    {
      names := map[];
      var i := 0;
      while i < MAX
        invariant 0 <= i <= MAX
        invariant forall n :: n in names ==> n in was && names[n] == was[n]
        invariant forall n :: n in was && was[n] < i ==> n in names
      {
        var l := slots[i];
        assert slots[..][i] == l && SlotOk(slots[..], was, i);
        OnlyName(slots[..], was, i);
        if l.state != ReadyToUse {
          if l.alias !in names { names := names[l.alias := i]; }
        }
        i := i + 1;
      }
      InTable(slots[..], was);
    }
  }

  lemma OnlyName(slots: seq<Ratelimit>, names: map<string, nat>, i: nat)
    requires Named(slots, names) && i < |slots|
    ensures forall n :: n in names && names[n] == i ==> slots[i].state != ReadyToUse && n == slots[i].alias
  {
    forall n | n in names && names[n] == i ensures slots[i].state != ReadyToUse && n == slots[i].alias {
      assert NameOk(slots, names, n);
    }
  }

  lemma InTable(slots: seq<Ratelimit>, names: map<string, nat>)
    requires Named(slots, names)
    ensures forall n :: n in names ==> names[n] < |slots|
  {
    forall n | n in names ensures names[n] < |slots| {
      assert NameOk(slots, names, n);
    }
  }

  lemma Purged(was: seq<Ratelimit>, names: map<string, nat>, v: map<string, Entry>, i: nat)
    requires Named(was, names) && i < |was| && View(was, names) == PurgedBelow(v, i)
    ensures (if was[i].state == Inactive then View(was, names) - {was[i].alias} else View(was, names))
            == PurgedBelow(v, i + 1)
  {
    var u, w := View(was, names), PurgedBelow(v, i);
    assert SlotOk(was, names, i);
    forall n ensures n in u && v[n].index == i ==>
      was[i].state != ReadyToUse && n == was[i].alias && v[n].active == (was[i].state == Active)
    {
      assert NameOk(was, names, n);
      assert n in u ==> u[n] == w[n];
    }
    var a := was[i].alias;
    assert was[i].state == Inactive ==> a in u && u[a] == w[a] == v[a];
    forall n ensures n in PurgedBelow(v, i + 1) <==> n in u && !(was[i].state == Inactive && n == a) {
      assert n in u <==> n in w;
    }
  }

  lemma SwitchedOff(was: seq<Ratelimit>, names: map<string, nat>, slots: seq<Ratelimit>, v: map<string, Entry>, i: nat)
    requires i < |was| && View(was, names) == OffBelow(v, i)
    requires slots == if was[i].state == Active then was[i := was[i].(state := Inactive)] else was
    ensures View(slots, names) == OffBelow(v, i + 1)
  {
    assert v.Keys == View(was, names).Keys;
    forall n | n in v ensures View(slots, names)[n] == OffBelow(v, i + 1)[n] {
      assert View(was, names)[n] == OffBelow(v, i)[n];
    }
  }

  lemma {:induction false} NotApplicable(m: map<string, Limit>, rules: seq<Rule>, i: nat)
    requires i <= |rules| && !Applicable(m, rules[..i])
    ensures !Applicable(m, rules)
    decreases |rules| - i
  {
    if i == |rules| {
      assert rules[..i] == rules;
    } else {
      assert rules[..i + 1][..i] == rules[..i];
      NotApplicable(m, rules, i + 1);
    }
  }

  lemma UpdateMeans(v: map<string, Entry>, patch: bool, w: map<string, Entry>)
    requires Grew(StartOf(v, patch), w)
    ensures SlotsKept(v, ActiveOnly(w)) && Meaning(ActiveOnly(w)) == InForce(Meaning(w))
  {
    forall n | n in v && n in ActiveOnly(w) ensures v[n].index == w[n].index {
      assert n in StartOf(v, patch) && n in w;
    }
  }
}
