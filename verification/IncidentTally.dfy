/** Books of the incident log: what was seen, where it is held, and the law that both sides agree. */
module IncidentTally {

  type Addr = nat

  /** Packets and bytes counted for an address, and the reasons they were dropped for. */
  datatype Stat = Stat(packets: nat, bytes: nat, reasons: set<nat>)

  const Zero := Stat(0, 0, {})

  function Plus(a: Stat, b: Stat): Stat {
    Stat(a.packets + b.packets, a.bytes + b.bytes, a.reasons + b.reasons)
  }

  function Sum(m1: Stat, m2: Stat, w: Stat, d: Stat, l: Stat): Stat {
    Plus(Plus(m1, m2), Plus(w, Plus(d, l)))
  }

  lemma SumPlus(m1: Stat, m2: Stat, w: Stat, d: Stat, l: Stat, e: Stat)
    ensures Plus(Sum(m1, m2, w, d, l), e) == Sum(Plus(m1, e), m2, w, d, l)
    ensures Plus(Sum(m1, m2, w, d, l), e) == Sum(m1, m2, w, Plus(d, e), l)
  {
  }

  lemma SumMove(m1: Stat, m2: Stat, w: Stat, d: Stat, l: Stat, r: Stat)
    ensures Sum(m1, Plus(r, m2), w, d, l) == Sum(m1, m2, Plus(w, r), d, l)
    ensures Sum(m1, Plus(r, m2), w, d, l) == Sum(m1, m2, w, d, Plus(l, r))
  {
  }

  lemma SumSwap(m1: Stat, m2: Stat, w: Stat, d: Stat, l: Stat)
    ensures Sum(m1, m2, w, d, l) == Sum(m2, m1, w, d, l)
  {
  }

  lemma PlusZero(s: Stat)
    ensures Plus(s, Zero) == s && Plus(Zero, s) == s
  {
  }

  datatype Event = Event(addr: Addr, size: nat, reason: nat)

  function StatOf(e: Event): Stat { Stat(1, e.size, {e.reason}) }

  /** A record handed to the writer. */
  datatype Row = Row(addr: Addr, stat: Stat, dropCnt: nat)

  type Log = map<Addr, Stat>

  /** One batch of a drain: whether it reached the writer, and the entries it removed. */
  datatype Batch = Batch(ok: bool, removed: Log)

  // ----- per address

  function InLog(m: Log, a: Addr): Stat { if a in m then m[a] else Zero }

  function InEvents(es: seq<Event>, a: Addr): Stat {
    if es == [] then Zero
    else var e := es[|es| - 1];
      Plus(InEvents(es[..|es| - 1], a), if e.addr == a then StatOf(e) else Zero)
  }

  function InRows(rows: seq<Row>, a: Addr): Stat {
    if rows == [] then Zero
    else var r := rows[|rows| - 1];
      Plus(InRows(rows[..|rows| - 1], a), if r.addr == a then r.stat else Zero)
  }

  /** What the batches of one outcome removed for an address. */
  function InBatches(bs: seq<Batch>, ok: bool, a: Addr): Stat {
    if bs == [] then Zero
    else var x := bs[|bs| - 1];
      Plus(InBatches(bs[..|bs| - 1], ok, a), if x.ok == ok then InLog(x.removed, a) else Zero)
  }

  /** Where incidents may be: in the two maps, with the writer, counted as dropped, or removed by one of
      the batches that failed. */
  datatype Books = Books(m1: Log, m2: Log, written: seq<Row>, dropped: seq<Event>, batches: seq<Batch>)

  function Held(b: Books, a: Addr): Stat {
    Sum(InLog(b.m1, a), InLog(b.m2, a), InRows(b.written, a), InEvents(b.dropped, a), InBatches(b.batches, false, a))
  }

  predicate Agrees(seen: seq<Event>, b: Books, a: Addr) {
    InEvents(seen, a) == Held(b, a)
  }

  /** For every address, packets, bytes and reasons seen are those in the books. */
  ghost predicate Balanced(seen: seq<Event>, b: Books) {
    forall a :: Agrees(seen, b, a)
  }

  lemma EventsPush(es: seq<Event>, e: Event, a: Addr)
    ensures InEvents(es + [e], a) == Plus(InEvents(es, a), Share(e, a))
  {
    assert (es + [e])[..|es|] == es;
  }

  function Share(e: Event, a: Addr): Stat { if e.addr == a then StatOf(e) else Zero }

  /** The map after one more incident. */
  function Recorded(m: Log, e: Event): Log { m[e.addr := Plus(InLog(m, e.addr), StatOf(e))] }

  lemma RecordedAt(m: Log, e: Event, a: Addr)
    ensures InLog(Recorded(m, e), a) == Plus(InLog(m, a), Share(e, a))
  {
    PutAt(m, e.addr, Plus(InLog(m, e.addr), StatOf(e)), a);
    PlusZero(InLog(m, a));
  }

  lemma PutAt(m: Log, k: Addr, s: Stat, a: Addr)
    ensures InLog(m[k := s], a) == if a == k then s else InLog(m, a)
  {
  }

  lemma EventAt(seen: seq<Event>, b: Books, e: Event, a: Addr)
    requires Agrees(seen, b, a)
    ensures Agrees(seen + [e], b.(m1 := Recorded(b.m1, e)), a)
    ensures Agrees(seen + [e], b.(dropped := b.dropped + [e]), a)
  {
    EventsPush(seen, e, a);
    EventsPush(b.dropped, e, a);
    RecordedAt(b.m1, e, a);
    SumPlus(InLog(b.m1, a), InLog(b.m2, a), InRows(b.written, a), InEvents(b.dropped, a),
            InBatches(b.batches, false, a), Share(e, a));
  }

  ghost predicate Splits(m: Log, removed: Log, rest: Log) {
    removed.Keys <= m.Keys && (forall a :: a in removed ==> removed[a] == m[a]) && rest == m - removed.Keys
  }

  lemma SplitAt(m: Log, removed: Log, rest: Log, a: Addr)
    requires Splits(m, removed, rest)
    ensures InLog(m, a) == Plus(InLog(removed, a), InLog(rest, a))
  {
    PlusZero(InLog(m, a));
  }

  /** `more` lists the entries of `removed`, after `rows`. */
  ghost predicate Appended(rows: seq<Row>, removed: Log, more: seq<Row>) {
    && (forall a :: InRows(more, a) == Plus(InRows(rows, a), InLog(removed, a)))
    && RowPackets(more) == RowPackets(rows) + Packets(removed)
  }

  lemma AppendNone(rows: seq<Row>)
    ensures Appended(rows, map[], rows)
  {
    forall a ensures InRows(rows, a) == Plus(InRows(rows, a), InLog(map[], a)) {
      PlusZero(InRows(rows, a));
    }
  }

  lemma AppendOne(rows: seq<Row>, done: Log, more: seq<Row>, r: Row)
    requires Appended(rows, done, more) && r.addr !in done
    ensures Appended(rows, done[r.addr := r.stat], more + [r])
  {
    var m, all := done[r.addr := r.stat], more + [r];
    forall a ensures InRows(all, a) == Plus(InRows(rows, a), InLog(m, a)) {
      RowsPush(more, r, a);
      PutAt(done, r.addr, r.stat, a);
      PlusMove(InRows(rows, a), InLog(done, a), r.stat);
    }
    assert all[..|more|] == more;
    PacketsWithout(m, r.addr);
    assert m - {r.addr} == done;
  }

  lemma RowsPush(rows: seq<Row>, r: Row, a: Addr)
    ensures InRows(rows + [r], a) == Plus(InRows(rows, a), if r.addr == a then r.stat else Zero)
  {
    assert (rows + [r])[..|rows|] == rows;
  }

  lemma PlusMove(a: Stat, b: Stat, c: Stat)
    ensures Plus(Plus(a, b), Zero) == Plus(a, b) && Plus(Plus(a, Zero), c) == Plus(a, c)
  {
  }

  lemma BatchesPush(bs: seq<Batch>, x: Batch, ok: bool, a: Addr)
    ensures InBatches(bs + [x], ok, a) == Plus(InBatches(bs, ok, a), if x.ok == ok then InLog(x.removed, a) else Zero)
  {
    assert (bs + [x])[..|bs|] == bs;
  }

  /** A batch moves what it removes from the map to the writer, or to the losses. */
  lemma MoveAt(seen: seq<Event>, b: Books, removed: Log, rest: Log, w: Stat, l: Stat, a: Addr)
    requires Agrees(seen, b, a) && Splits(b.m2, removed, rest)
    requires (w == Plus(InRows(b.written, a), InLog(removed, a)) && l == InBatches(b.batches, false, a))
          || (w == InRows(b.written, a) && l == Plus(InBatches(b.batches, false, a), InLog(removed, a)))
    ensures InEvents(seen, a) == Sum(InLog(b.m1, a), InLog(rest, a), w, InEvents(b.dropped, a), l)
  {
    SplitAt(b.m2, removed, rest, a);
    SumMove(InLog(b.m1, a), InLog(rest, a), InRows(b.written, a), InEvents(b.dropped, a),
            InBatches(b.batches, false, a), InLog(removed, a));
  }

  // ----- in total

  ghost function Packets(m: Log): nat {
    if m == map[] then 0
    else var a :| a in m;
      m[a].packets + Packets(m - {a})
  }

  function RowPackets(rows: seq<Row>): nat {
    if rows == [] then 0 else RowPackets(rows[..|rows| - 1]) + rows[|rows| - 1].stat.packets
  }

  lemma {:induction false} PacketsWithout(m: Log, a: Addr)
    requires a in m
    ensures Packets(m) == m[a].packets + Packets(m - {a})
    decreases |m|
  {
    var b :| b in m && Packets(m) == m[b].packets + Packets(m - {b});
    if b != a {
      assert |m - {b}| < |m| by { SmallerMap(m, b); }
      PacketsWithout(m - {b}, a);
      assert |m - {a}| < |m| by { SmallerMap(m, a); }
      PacketsWithout(m - {a}, b);
      assert m - {a} - {b} == m - {b} - {a};
    }
  }

  lemma SmallerMap(m: Log, a: Addr)
    requires a in m
    ensures |m - {a}| < |m|
  {
    assert (m - {a}).Keys == m.Keys - {a};
    assert |m.Keys - {a}| < |m.Keys|;
  }

  lemma PacketsRecorded(m: Log, e: Event)
    ensures Packets(Recorded(m, e)) == Packets(m) + 1
  {
    var n := Recorded(m, e);
    PacketsWithout(n, e.addr);
    assert n - {e.addr} == m - {e.addr};
    if e.addr in m {
      PacketsWithout(m, e.addr);
    } else {
      assert m - {e.addr} == m;
    }
  }

  lemma {:induction false} PacketsSplit(m: Log, removed: Log, rest: Log)
    requires Splits(m, removed, rest)
    ensures Packets(m) == Packets(removed) + Packets(rest)
    decreases |removed|
  {
    if removed == map[] {
      assert rest == m;
    } else {
      var a :| a in removed;
      SmallerMap(removed, a);
      PacketsWithout(m, a);
      PacketsWithout(removed, a);
      assert rest == (m - {a}) - (removed - {a}).Keys;
      PacketsSplit(m - {a}, removed - {a}, rest);
    }
  }

  /** The packets the failing batches removed. */
  ghost function LostPackets(bs: seq<Batch>): nat {
    if bs == [] then 0
    else var x := bs[|bs| - 1];
      LostPackets(bs[..|bs| - 1]) + if x.ok then 0 else Packets(x.removed)
  }

  lemma LostPush(bs: seq<Batch>, x: Batch)
    ensures LostPackets(bs + [x]) == LostPackets(bs) + if x.ok then 0 else Packets(x.removed)
  {
    assert (bs + [x])[..|bs|] == bs;
  }

  /** Every packet seen is in one of the maps, written, counted as dropped, or lost with a batch. */
  ghost predicate Counted(seen: nat, b: Books) {
    seen == Packets(b.m1) + Packets(b.m2) + RowPackets(b.written) + |b.dropped| + LostPackets(b.batches)
  }

  /** Every entry stands for at least one packet. */
  ghost predicate Positive(m: Log) {
    forall a :: a in m ==> m[a].packets > 0
  }

  ghost predicate PositiveBatches(bs: seq<Batch>) {
    forall i :: 0 <= i < |bs| ==> Positive(bs[i].removed)
  }

  /** The writer got exactly what the successful batches removed. */
  ghost predicate Delivered(written: seq<Row>, bs: seq<Batch>) {
    forall a :: InRows(written, a) == InBatches(bs, true, a)
  }

  // ----- every step keeps the books

  ghost predicate Sound(seen: seq<Event>, b: Books) {
    && Balanced(seen, b) && Counted(|seen|, b) && Delivered(b.written, b.batches)
    && Positive(b.m1) && Positive(b.m2) && PositiveBatches(b.batches)
  }

  lemma SoundEmpty(seen: seq<Event>, b: Books)
    requires seen == [] && b == Books(map[], map[], [], [], [])
    ensures Sound(seen, b)
  {
    forall a ensures Agrees(seen, b, a) {
      PlusZero(Zero);
    }
  }

  lemma SoundEvent(seen: seq<Event>, b: Books, e: Event)
    requires Sound(seen, b)
    ensures Sound(seen + [e], b.(m1 := Recorded(b.m1, e)))
    ensures Sound(seen + [e], b.(dropped := b.dropped + [e]))
  {
    forall a
      ensures Agrees(seen + [e], b.(m1 := Recorded(b.m1, e)), a)
      ensures Agrees(seen + [e], b.(dropped := b.dropped + [e]), a)
    {
      EventAt(seen, b, e, a);
    }
    PacketsRecorded(b.m1, e);
  }

  lemma SoundSwap(seen: seq<Event>, b: Books)
    requires Sound(seen, b)
    ensures Sound(seen, b.(m1 := b.m2, m2 := b.m1))
  {
    forall a ensures Agrees(seen, b.(m1 := b.m2, m2 := b.m1), a) {
      assert Agrees(seen, b, a);
      SumSwap(InLog(b.m1, a), InLog(b.m2, a), InRows(b.written, a), InEvents(b.dropped, a), InBatches(b.batches, false, a));
    }
  }

  lemma SoundWrite(seen: seq<Event>, b: Books, removed: Log, rest: Log, more: seq<Row>)
    requires Sound(seen, b) && Splits(b.m2, removed, rest) && Appended(b.written, removed, more)
    ensures Sound(seen, b.(m2 := rest, written := more, batches := b.batches + [Batch(true, removed)]))
  {
    var bs := b.batches + [Batch(true, removed)];
    forall a ensures Agrees(seen, b.(m2 := rest, written := more, batches := bs), a) && InRows(more, a) == InBatches(bs, true, a) {
      BatchesPush(b.batches, Batch(true, removed), false, a);
      BatchesPush(b.batches, Batch(true, removed), true, a);
      PlusZero(InBatches(b.batches, false, a));
      MoveAt(seen, b, removed, rest, InRows(more, a), InBatches(b.batches, false, a), a);
    }
    PacketsSplit(b.m2, removed, rest);
    LostPush(b.batches, Batch(true, removed));
  }

  lemma SoundLose(seen: seq<Event>, b: Books, removed: Log, rest: Log)
    requires Sound(seen, b) && Splits(b.m2, removed, rest)
    ensures Sound(seen, b.(m2 := rest, batches := b.batches + [Batch(false, removed)]))
  {
    var bs := b.batches + [Batch(false, removed)];
    forall a ensures Agrees(seen, b.(m2 := rest, batches := bs), a) && InRows(b.written, a) == InBatches(bs, true, a) {
      BatchesPush(b.batches, Batch(false, removed), false, a);
      BatchesPush(b.batches, Batch(false, removed), true, a);
      PlusZero(InBatches(b.batches, true, a));
      MoveAt(seen, b, removed, rest, InRows(b.written, a), InBatches(bs, false, a), a);
    }
    PacketsSplit(b.m2, removed, rest);
    LostPush(b.batches, Batch(false, removed));
  }

  // ----- when nothing is lost

  /** No batch failed after it had removed an entry. */
  ghost predicate LossFree(bs: seq<Batch>) {
    forall i :: 0 <= i < |bs| ==> bs[i].ok || bs[i].removed == map[]
  }

  lemma NothingLost(m: Log)
    requires Positive(m)
    ensures Packets(m) == 0 <==> m == map[]
  {
    if m != map[] {
      var a :| a in m;
      PacketsWithout(m, a);
    }
  }

  lemma {:induction false} LossFreeIff(bs: seq<Batch>)
    requires PositiveBatches(bs)
    ensures LostPackets(bs) == 0 <==> LossFree(bs)
    decreases |bs|
  {
    if bs != [] {
      var k := |bs| - 1;
      LossFreeIff(bs[..k]);
      NothingLost(bs[k].removed);
      assert LossFree(bs) <==> LossFree(bs[..k]) && (bs[k].ok || bs[k].removed == map[]) by {
        assert bs == bs[..k] + [bs[k]];
      }
    }
  }

  /** Over a run with batches `b.batches`, the law that events equal both maps plus what was written plus
      the drop counter holds exactly when no batch failed after removing an entry. */
  lemma ConservedIff(seen: seq<Event>, b: Books)
    requires Sound(seen, b)
    ensures |seen| == Packets(b.m1) + Packets(b.m2) + RowPackets(b.written) + |b.dropped| <==> LossFree(b.batches)
  {
    LossFreeIff(b.batches);
  }

  /** One incident, a swap, and a drain whose only batch removes the entry and then fails: the incident
      is in no map, was not written and was not counted as dropped. */
  lemma FailingBatchLoses(e: Event) returns (b: Books)
    ensures Sound([e], b) && b.m1 == b.m2 == map[] && b.written == [] && b.dropped == []
    ensures b.batches == [Batch(false, map[e.addr := StatOf(e)])] && !LossFree(b.batches)
    ensures 1 != Packets(b.m1) + Packets(b.m2) + RowPackets(b.written) + |b.dropped|
  {
    var empty := Books(map[], map[], [], [], []);
    SoundEmpty([], empty);
    SoundEvent([], empty, e);
    assert [] + [e] == [e];
    var recorded := empty.(m1 := Recorded(map[], e));
    SoundSwap([e], recorded);
    var swapped := recorded.(m1 := recorded.m2, m2 := recorded.m1);
    PlusZero(StatOf(e));
    var entry: Log := map[e.addr := StatOf(e)];
    assert swapped.m2 == entry;
    SoundLose([e], swapped, entry, map[]);
    b := swapped.(m2 := map[], batches := [] + [Batch(false, entry)]);
    assert b.batches == [Batch(false, entry)];
    assert e.addr in b.batches[0].removed;
    ConservedIff([e], b);
  }

  // ----- packets, bytes and reasons of an address, each counted on its own

  function SeenPackets(es: seq<Event>, a: Addr): nat {
    if es == [] then 0 else SeenPackets(es[..|es| - 1], a) + if es[|es| - 1].addr == a then 1 else 0
  }

  function SeenBytes(es: seq<Event>, a: Addr): nat {
    if es == [] then 0 else SeenBytes(es[..|es| - 1], a) + if es[|es| - 1].addr == a then es[|es| - 1].size else 0
  }

  function SeenReasons(es: seq<Event>, a: Addr): set<nat> {
    set i | 0 <= i < |es| && es[i].addr == a :: es[i].reason
  }

  lemma {:induction false} SeenCounts(es: seq<Event>, a: Addr)
    ensures InEvents(es, a).packets == SeenPackets(es, a) && InEvents(es, a).bytes == SeenBytes(es, a)
    decreases |es|
  {
    if es != [] { SeenCounts(es[..|es| - 1], a); }
  }

  lemma {:induction false} SeenWhy(es: seq<Event>, a: Addr)
    ensures InEvents(es, a).reasons == SeenReasons(es, a)
    decreases |es|
  {
    if es != [] {
      SeenWhy(es[..|es| - 1], a);
      ReasonsPush(es, a);
    }
  }

  lemma ReasonsPush(es: seq<Event>, a: Addr)
    requires es != []
    ensures es[|es| - 1].addr == a ==> SeenReasons(es, a) == SeenReasons(es[..|es| - 1], a) + {es[|es| - 1].reason}
    ensures es[|es| - 1].addr != a ==> SeenReasons(es, a) == SeenReasons(es[..|es| - 1], a)
  {
    var n := |es| - 1;
    forall r | r in SeenReasons(es, a) ensures r in SeenReasons(es[..n], a) || (es[n].addr == a && r == es[n].reason) {
      var i :| 0 <= i < |es| && es[i].addr == a && es[i].reason == r;
      if i < n { assert es[..n][i] == es[i]; }
    }
    forall r | r in SeenReasons(es[..n], a) ensures r in SeenReasons(es, a) {
      var i :| 0 <= i < n && es[..n][i].addr == a && es[..n][i].reason == r;
      assert es[i] == es[..n][i];
    }
  }

  function WrittenPackets(rows: seq<Row>, a: Addr): nat {
    if rows == [] then 0
    else WrittenPackets(rows[..|rows| - 1], a) + if rows[|rows| - 1].addr == a then rows[|rows| - 1].stat.packets else 0
  }

  function WrittenBytes(rows: seq<Row>, a: Addr): nat {
    if rows == [] then 0
    else WrittenBytes(rows[..|rows| - 1], a) + if rows[|rows| - 1].addr == a then rows[|rows| - 1].stat.bytes else 0
  }

  function WrittenReasons(rows: seq<Row>, a: Addr): set<nat> {
    set i, r | 0 <= i < |rows| && rows[i].addr == a && r in rows[i].stat.reasons :: r
  }

  lemma {:induction false} WrittenCounts(rows: seq<Row>, a: Addr)
    ensures InRows(rows, a).packets == WrittenPackets(rows, a) && InRows(rows, a).bytes == WrittenBytes(rows, a)
    decreases |rows|
  {
    if rows != [] { WrittenCounts(rows[..|rows| - 1], a); }
  }

  lemma {:induction false} WrittenWhy(rows: seq<Row>, a: Addr)
    ensures InRows(rows, a).reasons == WrittenReasons(rows, a)
    decreases |rows|
  {
    if rows != [] {
      var n := |rows| - 1;
      WrittenWhy(rows[..n], a);
      forall r ensures r in WrittenReasons(rows, a) <==>
        r in WrittenReasons(rows[..n], a) || (rows[n].addr == a && r in rows[n].stat.reasons)
      {
        if r in WrittenReasons(rows, a) {
          var i :| 0 <= i < |rows| && rows[i].addr == a && r in rows[i].stat.reasons;
          if i < n { assert rows[..n][i] == rows[i]; }
        }
        if r in WrittenReasons(rows[..n], a) {
          var i :| 0 <= i < n && rows[..n][i].addr == a && r in rows[..n][i].stat.reasons;
          assert rows[i] == rows[..n][i];
        }
      }
    }
  }

  /** A failing batch took the entry of the address along. */
  predicate Loses(x: Batch, a: Addr) { !x.ok && a in x.removed }

  function LostCount(bs: seq<Batch>, a: Addr): nat {
    if bs == [] then 0
    else
      var x := bs[|bs| - 1];
      LostCount(bs[..|bs| - 1], a) + if Loses(x, a) then x.removed[a].packets else 0
  }

  function LostBytes(bs: seq<Batch>, a: Addr): nat {
    if bs == [] then 0
    else
      var x := bs[|bs| - 1];
      LostBytes(bs[..|bs| - 1], a) + if Loses(x, a) then x.removed[a].bytes else 0
  }

  function LostReasons(bs: seq<Batch>, a: Addr): set<nat> {
    set i, r | 0 <= i < |bs| && Loses(bs[i], a) && r in bs[i].removed[a].reasons :: r
  }

  lemma {:induction false} LostCounts(bs: seq<Batch>, a: Addr)
    ensures InBatches(bs, false, a).packets == LostCount(bs, a) && InBatches(bs, false, a).bytes == LostBytes(bs, a)
    decreases |bs|
  {
    if bs != [] { LostCounts(bs[..|bs| - 1], a); }
  }

  lemma {:induction false} LostWhy(bs: seq<Batch>, a: Addr)
    ensures InBatches(bs, false, a).reasons == LostReasons(bs, a)
    decreases |bs|
  {
    if bs != [] {
      var n := |bs| - 1;
      LostWhy(bs[..n], a);
      forall r ensures r in LostReasons(bs, a) <==>
        r in LostReasons(bs[..n], a) || (Loses(bs[n], a) && r in bs[n].removed[a].reasons)
      {
        if r in LostReasons(bs, a) {
          var i :| 0 <= i < |bs| && Loses(bs[i], a) && r in bs[i].removed[a].reasons;
          if i < n { assert bs[..n][i] == bs[i]; }
        }
        if r in LostReasons(bs[..n], a) {
          var i :| 0 <= i < n && Loses(bs[..n][i], a) && r in bs[..n][i].removed[a].reasons;
          assert bs[i] == bs[..n][i];
        }
      }
    }
  }

  function EntryPackets(m: Log, a: Addr): nat { if a in m then m[a].packets else 0 }

  function EntryBytes(m: Log, a: Addr): nat { if a in m then m[a].bytes else 0 }

  function EntryReasons(m: Log, a: Addr): set<nat> { if a in m then m[a].reasons else {} }

  /** For one address: the incidents seen, their sizes and their reasons are those in the maps, with the
      writer, counted as dropped and lost with failing batches. */
  ghost predicate Columns(seen: seq<Event>, b: Books, a: Addr) {
    && SeenPackets(seen, a) == EntryPackets(b.m1, a) + EntryPackets(b.m2, a) + WrittenPackets(b.written, a)
                               + SeenPackets(b.dropped, a) + LostCount(b.batches, a)
    && SeenBytes(seen, a) == EntryBytes(b.m1, a) + EntryBytes(b.m2, a) + WrittenBytes(b.written, a)
                             + SeenBytes(b.dropped, a) + LostBytes(b.batches, a)
    && SeenReasons(seen, a) == EntryReasons(b.m1, a) + EntryReasons(b.m2, a) + WrittenReasons(b.written, a)
                               + SeenReasons(b.dropped, a) + LostReasons(b.batches, a)
  }

  lemma ColumnsAgree(seen: seq<Event>, b: Books, a: Addr)
    requires Sound(seen, b)
    ensures Columns(seen, b, a)
  {
    assert Agrees(seen, b, a);
    ColumnsAt(seen, b, a);
  }

  lemma ColumnsAt(seen: seq<Event>, b: Books, a: Addr)
    requires Agrees(seen, b, a)
    ensures Columns(seen, b, a)
  {
    SumFields(InEvents(seen, a), InLog(b.m1, a), InLog(b.m2, a), InRows(b.written, a), InEvents(b.dropped, a),
              InBatches(b.batches, false, a));
    CountsAt(seen, b, a);
    WhyAt(seen, b, a);
  }

  lemma CountsAt(seen: seq<Event>, b: Books, a: Addr)
    ensures InEvents(seen, a).packets == SeenPackets(seen, a) && InEvents(seen, a).bytes == SeenBytes(seen, a)
    ensures InEvents(b.dropped, a).packets == SeenPackets(b.dropped, a) && InEvents(b.dropped, a).bytes == SeenBytes(b.dropped, a)
    ensures InRows(b.written, a).packets == WrittenPackets(b.written, a) && InRows(b.written, a).bytes == WrittenBytes(b.written, a)
    ensures InBatches(b.batches, false, a).packets == LostCount(b.batches, a)
    ensures InBatches(b.batches, false, a).bytes == LostBytes(b.batches, a)
    ensures InLog(b.m1, a).packets == EntryPackets(b.m1, a) && InLog(b.m1, a).bytes == EntryBytes(b.m1, a)
    ensures InLog(b.m2, a).packets == EntryPackets(b.m2, a) && InLog(b.m2, a).bytes == EntryBytes(b.m2, a)
  {
    SeenCounts(seen, a);
    SeenCounts(b.dropped, a);
    WrittenCounts(b.written, a);
    LostCounts(b.batches, a);
  }

  lemma WhyAt(seen: seq<Event>, b: Books, a: Addr)
    ensures InEvents(seen, a).reasons == SeenReasons(seen, a) && InEvents(b.dropped, a).reasons == SeenReasons(b.dropped, a)
    ensures InRows(b.written, a).reasons == WrittenReasons(b.written, a)
    ensures InBatches(b.batches, false, a).reasons == LostReasons(b.batches, a)
    ensures InLog(b.m1, a).reasons == EntryReasons(b.m1, a) && InLog(b.m2, a).reasons == EntryReasons(b.m2, a)
  {
    SeenWhy(seen, a);
    SeenWhy(b.dropped, a);
    WrittenWhy(b.written, a);
    LostWhy(b.batches, a);
  }

  lemma SumFields(s: Stat, m1: Stat, m2: Stat, w: Stat, d: Stat, l: Stat)
    requires s == Sum(m1, m2, w, d, l)
    ensures s.packets == m1.packets + m2.packets + w.packets + d.packets + l.packets
    ensures s.bytes == m1.bytes + m2.bytes + w.bytes + d.bytes + l.bytes
    ensures s.reasons == m1.reasons + m2.reasons + w.reasons + d.reasons + l.reasons
  {
  }
}
