/** The incident log of one CPU: the datapath counts into the active map, the processor swaps the
    maps and drains the inactive one. Incidents may happen between any two steps of the processor. */
module IncidentLog {
  import opened BpfHashMaps
  import opened IncidentTally

  const MAX: nat := 262144
  const THRESHOLD: nat := MAX * 4 / 5
  const TIMER_INTERVAL: nat := 1_000_000_000

  type IncidentMap = BpfHashMap<Addr, Stat>

  /** What the datapath tells the processor. */
  datatype NotifyInfo = NotifyInfo(swapTs: nat, dropCnt: nat)

  /** What the datapath keeps for itself. */
  datatype BpfOnlyInfo = BpfOnlyInfo(lastUsedMap: BpfHashMap?<Addr, Stat>, insertCnt: nat)

  /** All incidents, those only counted as dropped, and the batches that drained a map; how many
      entries the datapath's map held when it became active and how many swap requests were made since;
      whether every drain so far has succeeded. */
  datatype Past =
    Past(seen: seq<Event>, dropped: seq<Event>, batches: seq<Batch>, leftover: nat, requests: nat, drained: bool)

  /** The batches from `start` on have succeeded. */
  ghost predicate Succeeded(bs: seq<Batch>, start: nat) {
    forall i :: start <= i < |bs| ==> bs[i].ok
  }

  /** The datapath knows how full its map is and asks for a swap in time. */
  ghost predicate Tracked(size: nat, count: nat, past: Past) {
    && size <= past.leftover + count
    && size < past.leftover + past.requests + THRESHOLD
    && (past.drained ==> past.leftover == 0 && Succeeded(past.batches, 0))
  }

  class IncidentLogProcessor {
    var active: IncidentMap
    var inactive: IncidentMap
    /** The map the datapath looks up. */
    var activeFd: IncidentMap
    var notify: NotifyInfo
    var info: BpfOnlyInfo

    var written: seq<Row>
    var lastSwapTs: nat
    var nextSwap: nat
    var stopCalled: bool
    var stopped: bool

    var clock: nat
    ghost var past: Past

    ghost function Other(): IncidentMap
      reads this`active, this`inactive, this`activeFd
    {
      if activeFd == active then inactive else active
    }

    ghost function Accounts(): Books
      reads this`active, this`inactive, this`activeFd, this`written, this`past, active, inactive, activeFd
    {
      Books(activeFd.content, Other().content, written, past.dropped, past.batches)
    }

    /** Conservation. */
    ghost predicate Kept()
      reads this`active, this`inactive, this`activeFd, this`written, this`past, this`notify
      reads active, inactive, activeFd
    {
      && active != inactive && (activeFd == active || activeFd == inactive)
      && active.capacity == MAX && inactive.capacity == MAX
      && notify.dropCnt == |past.dropped| && Sound(past.seen, Accounts())
    }

    ghost predicate Valid()
      reads this, active, inactive, activeFd
    {
      && Kept() && notify.swapTs <= clock
      && Tracked(|activeFd.content|, if info.lastUsedMap == activeFd then info.insertCnt else 0, past)
    }

    /** Between two calls of the processor. */
    ghost predicate Idle()
      reads this, active, inactive, activeFd
    {
      Valid() && activeFd == active && (past.drained ==> inactive.content == map[])
    }

    /** As long as every drain has succeeded, every incident is in a map, written, or counted as dropped. */
    lemma DrainedConserves()
      requires Valid() && past.drained
      ensures |past.seen| == Packets(active.content) + Packets(inactive.content) + RowPackets(written) + notify.dropCnt
    {
      ConservedIff(past.seen, Accounts());
    }

    /** Packets, bytes and reasons of every address are accounted for, whatever has failed. */
    lemma EveryAddressAccounted(a: Addr)
      requires Valid()
      ensures Columns(past.seen, Accounts(), a)
    {
      ColumnsAgree(past.seen, Accounts(), a);
    }

    constructor (stamp: nat, now: nat)
      ensures Idle() && fresh(active) && fresh(inactive)
      ensures past == Past([], [], [], 0, 0, true) && written == [] && !stopped && !stopCalled
    {
      var a := new BpfHashMap<Addr, Stat>(MAX);
      var b := new BpfHashMap<Addr, Stat>(MAX);
      active, inactive, activeFd := a, b, a;
      notify, info := NotifyInfo(0, 0), BpfOnlyInfo(null, 0);
      written, lastSwapTs, nextSwap, stopCalled, stopped, clock := [], stamp, now + TIMER_INTERVAL, false, false, now;
      past := Past([], [], [], 0, 0, true);
      new;
      SoundEmpty(past.seen, Accounts());
    }

    // ----- the datapath

    /** What incidents leave alone. */
    twostate predicate Continues()
      reads this
    {
      && old(past.seen) <= past.seen && old(past.dropped) <= past.dropped && past.batches == old(past.batches)
      && past.leftover == old(past.leftover) && past.drained == old(past.drained)
    }

    /** What was counted, dropped, drained and written stays so. */
    twostate predicate Grows()
      reads this
    {
      && old(past.seen) <= past.seen && old(past.dropped) <= past.dropped
      && old(past.batches) <= past.batches && old(written) <= written
    }

    method KtimeGetNs() returns (now: nat)
      modifies this`clock
      ensures now == clock && clock >= old(clock)
      ensures old(Valid()) ==> Valid()
      ensures old(Idle()) ==> Idle()
    {
      var elapsed: int := *;
      if elapsed > 0 { clock := clock + elapsed; }
      now := clock;
    }

    /** Counts one more entry of the active map. */
    method UpdateMapInfo() returns (count: nat)
      modifies this`info
      ensures info == BpfOnlyInfo(activeFd, count)
      ensures count == if old(info.lastUsedMap) == activeFd then old(info.insertCnt) + 1 else 1
    {
      if info.lastUsedMap == activeFd {
        info := info.(insertCnt := info.insertCnt + 1);
      } else {
        info := BpfOnlyInfo(activeFd, 1);
      }
      count := info.insertCnt;
    }

    method PushSwapEvent()
      requires Kept()
      modifies this`notify, this`clock, this`past
      ensures Kept() && past == old(past).(requests := old(past.requests) + 1)
      ensures notify.swapTs == clock >= old(clock)
    {
      var now := KtimeGetNs();
      notify := notify.(swapTs := now);
      past := past.(requests := past.requests + 1);
    }

    /** The incident is only counted. */
    method UpdateDropCnt(e: Event)
      requires Kept()
      modifies this`notify, this`past
      ensures Kept() && past == old(past).(seen := old(past.seen) + [e], dropped := old(past.dropped) + [e])
      ensures notify == old(notify).(dropCnt := old(notify.dropCnt) + 1)
    {
      SoundEvent(past.seen, Accounts(), e);
      notify := notify.(dropCnt := notify.dropCnt + 1);
      past := past.(seen := past.seen + [e], dropped := past.dropped + [e]);
    }

    /** Adds the incident to the entry of its address, which is new or not. */
    method Store(e: Event)
      requires Kept()
      modifies this`past, activeFd`content
      ensures Kept() && past == old(past).(seen := old(past.seen) + [e])
      ensures activeFd.content == Recorded(old(activeFd.content), e)
      ensures |activeFd.content| == old(|activeFd.content|) + if old(e.addr in activeFd.content) then 0 else 1
    {
      SoundEvent(past.seen, Accounts(), e);
      RecordedSize(activeFd.content, e);
      activeFd.content := Recorded(activeFd.content, e);
      past := past.(seen := past.seen + [e]);
    }

    /** What the insert counter will be after one more entry. */
    ghost function NextCount(): nat
      reads this`info, this`activeFd
    {
      if info.lastUsedMap == activeFd then info.insertCnt + 1 else 1
    }

    /** A first incident of an address: the entry is counted and may ask for a swap. */
    method StoreNew(e: Event)
      requires Valid() && e.addr !in activeFd.content
      modifies this`notify, this`info, this`clock, this`past, activeFd`content
      ensures Valid() && past.(requests := 0) == old(past).(seen := old(past.seen) + [e], requests := 0)
      ensures info == BpfOnlyInfo(activeFd, old(NextCount()))
      ensures past.requests == old(past.requests) + if old(NextCount()) >= THRESHOLD then 1 else 0
      ensures activeFd.content == Recorded(old(activeFd.content), e) && notify.dropCnt == old(notify.dropCnt)
    {
      Store(e);
      var newSize := UpdateMapInfo();
      if newSize >= THRESHOLD { PushSwapEvent(); }
    }

    method Drop(e: Event, noRoom: bool)
      requires Valid()
      modifies this`notify, this`clock, this`past
      ensures Valid() && Continues() && past.seen == old(past.seen) + [e]
      ensures notify.dropCnt == old(notify.dropCnt) + 1
      ensures past.requests == old(past.requests) + if noRoom then 1 else 0
    {
      UpdateDropCnt(e);
      if noRoom { PushSwapEvent(); }
    }

    /** One dropped packet. `found`, `inserted` and `noMemory` say how the kernel's map lookup and insert
        turned out. When the map has no room left, the processor has been asked to swap once for
        every entry beyond the threshold. */
    method RegisterIncident(e: Event, found: bool, inserted: bool, noMemory: bool)
      requires Valid()
      modifies this`notify, this`info, this`clock, this`past, activeFd`content
      ensures Valid() && Continues() && past.seen == old(past.seen) + [e]
      ensures var m := old(activeFd.content);
        if found && e.addr in m then
          activeFd.content == m[e.addr := Stat(m[e.addr].packets + 1, m[e.addr].bytes + e.size, m[e.addr].reasons + {e.reason})]
          && notify.dropCnt == old(notify.dropCnt)
        else if found && inserted && |m| < 262144 then
          activeFd.content == m[e.addr := Stat(1, e.size, {e.reason})] && notify.dropCnt == old(notify.dropCnt)
        else activeFd.content == m && notify.dropCnt == old(notify.dropCnt) + 1
      ensures var m := old(activeFd.content);
        past.requests == old(past.requests) +
          if found && e.addr !in m &&
             (if inserted && |m| < 262144 then old(NextCount()) >= 209715 else noMemory || |m| >= 262144) then 1 else 0
      ensures old(|activeFd.content|) >= 262144 ==> old(past.requests) + past.leftover > 52429
      ensures old(|activeFd.content|) >= 262144 && past.drained ==> old(past.requests) > 52429
    {
      RecordedIs(activeFd.content, e);
      if !found {
        Drop(e, false);
      } else if e.addr in activeFd.content {
        Store(e);
      } else if inserted && |activeFd.content| < activeFd.capacity {
        StoreNew(e);
      } else {
        Drop(e, noMemory || |activeFd.content| >= activeFd.capacity);
      }
    }

    /** Any number of incidents. */
    method Traffic()
      requires Valid()
      modifies this`notify, this`info, this`clock, this`past, activeFd`content
      ensures Valid() && Continues()
      ensures old(Idle()) ==> Idle()
    {
      var more: int := *;
      while more > 0
        invariant Valid() && Continues() && (old(Idle()) ==> Idle())
      {
        var e: Event := *;
        var found: bool, inserted: bool, noMemory: bool := *, *, *;
        RegisterIncident(e, found, inserted, noMemory);
        more := more - 1;
      }
    }

    // ----- the processor

    /** Points the datapath at the other map, unless the kernel refuses. */
    method SwapActiveMap(accepted: bool) returns (ok: bool)
      requires Idle()
      modifies this`active, this`inactive, this`activeFd, this`past
      ensures Valid() && ok == accepted && activeFd == active
      ensures !ok ==> Idle()
      ensures ok ==> active == old(inactive) && inactive == old(active)
      ensures ok ==> past == old(past).(leftover := old(|inactive.content|), requests := 0)
      ensures !ok ==> active == old(active) && inactive == old(inactive) && past == old(past)
    {
      if !accepted { return false; }
      SoundSwap(past.seen, Accounts());
      activeFd := inactive;
      past := past.(leftover := |inactive.content|, requests := 0);
      active, inactive := inactive, active;
      return true;
    }

    /** Hands the entries of a batch to the writer. */
    method AppendEvents(removed: Log, dropCnt: nat)
      modifies this`written
      ensures Appended(old(written), removed, written)
      ensures old(written) <= written && forall i :: |old(written)| <= i < |written| ==> written[i].dropCnt == dropCnt
    {
      var rest := removed;
      AppendNone(written);
      assert removed - rest.Keys == map[];
      while rest != map[]
        invariant rest.Keys <= removed.Keys && (forall a :: a in rest ==> rest[a] == removed[a])
        invariant Appended(old(written), removed - rest.Keys, written)
        invariant old(written) <= written
        invariant forall i :: |old(written)| <= i < |written| ==> written[i].dropCnt == dropCnt
        decreases |rest|
      {
        var a :| a in rest;
        SmallerMap(rest, a);
        AppendOne(old(written), removed - rest.Keys, written, Row(a, removed[a], dropCnt));
        assert (removed - rest.Keys)[a := removed[a]] == removed - (rest - {a}).Keys;
        written := written + [Row(a, removed[a], dropCnt)];
        rest := rest - {a};
      }
      assert removed - rest.Keys == removed;
    }

    /** Drains the inactive map into the writer, batch by batch, while incidents go on. A failing batch
        ends the drain; what it had removed is lost. */
    method ReadAndClearInactiveMap(dropCnt: nat, memory: bool) returns (ok: bool)
      requires Valid() && activeFd == active
      modifies this`notify, this`info, this`clock, this`past, this`written, active`content, inactive
      ensures Idle() && Grows() && past.drained == (old(past.drained) && ok)
      ensures ok ==> inactive.content == map[] && Succeeded(past.batches, |old(past.batches)|)
      ensures !memory ==> !ok && past == old(past).(drained := false) && written == old(written)
      ensures memory && !ok ==> |past.batches| > |old(past.batches)| && !past.batches[|past.batches| - 1].ok
    {
      if !memory {
        past := past.(drained := false);
        return false;
      }
      var remaining := true;
      while remaining
        invariant Valid() && Grows() && past.leftover == old(past.leftover)
        invariant Succeeded(past.batches, |old(past.batches)|) && past.drained == old(past.drained)
        invariant !remaining ==> inactive.content == map[]
        decreases remaining, inactive.content.Keys
      {
        var err := CountAndDrain(dropCnt);
        if err == EFAULT { return false; }
        remaining := err != ENOENT;
      }
      return true;
    }

    method CountAndDrain(dropCnt: nat) returns (err: Errno)
      requires Valid() && activeFd == active
      modifies this`notify, this`info, this`clock, this`past, this`written, active`content, inactive
      ensures Valid() && Grows() && past.leftover == old(past.leftover) && err in {Ok, ENOENT, EFAULT}
      ensures |past.batches| == |old(past.batches)| + 1 && past.batches[|old(past.batches)|].ok == (err != EFAULT)
      ensures past.drained == (old(past.drained) && err != EFAULT)
      ensures err == Ok ==> inactive.content.Keys < old(inactive.content.Keys)
      ensures err == ENOENT ==> inactive.content == map[]
    {
      Traffic();
      ghost var removed;
      err, removed := DrainBatch(dropCnt);
    }

    /** Moves one batch of entries out of the inactive map: to the writer, or nowhere if the batch fails. */
    method DrainBatch(dropCnt: nat) returns (err: Errno, ghost removed: Log)
      requires Valid() && activeFd == active
      modifies this`past, this`written, inactive
      ensures Valid() && err in {Ok, ENOENT, EFAULT}
      ensures Splits(old(inactive.content), removed, inactive.content)
      ensures past == old(past).(
        batches := old(past.batches) + [Batch(err != EFAULT, removed)], drained := old(past.drained) && err != EFAULT)
      ensures if err == EFAULT then written == old(written) else Appended(old(written), removed, written)
      ensures old(written) <= written && forall i :: |old(written)| <= i < |written| ==> written[i].dropCnt == dropCnt
      ensures err == Ok ==> inactive.content.Keys < old(inactive.content.Keys)
      ensures err == ENOENT ==> inactive.content == map[]
    {
      ghost var accounts, before := Accounts(), inactive.content;
      var entries;
      err, entries := inactive.LookupAndDeleteBatch();
      removed := entries;
      assert Splits(before, removed, inactive.content);
      if err == EFAULT {
        SoundLose(past.seen, accounts, removed, inactive.content);
      } else {
        AppendEvents(entries, dropCnt);
        SoundWrite(past.seen, accounts, removed, inactive.content, written);
        assert err == Ok ==> exists a :: a in removed;
      }
      past := past.(batches := past.batches + [Batch(err != EFAULT, removed)], drained := past.drained && err != EFAULT);
    }

    /** Swaps, drains, and restarts the timer. A failing drain is not reported; `drained` says whether
        it succeeded. The swap counts as done only when the drain has ended: every swap request up to
        then, also one made during the drain, is older. */
    method HandleSwapEvent(dropCnt: nat, accepted: bool, memory: bool) returns (ok: bool, ghost drained: bool)
      requires Idle()
      modifies this`active, this`inactive, this`activeFd, this`notify, this`info, this`clock, this`past, this`written
      modifies this`lastSwapTs, this`nextSwap, active, inactive
      ensures Idle() && ok == accepted && Grows() && past.drained == (old(past.drained) && drained)
      ensures drained ==> Succeeded(past.batches, |old(past.batches)|)
      ensures ok ==> active == old(inactive) && inactive == old(active) && (drained ==> inactive.content == map[])
      ensures ok ==> notify.swapTs <= lastSwapTs == clock && nextSwap == clock + TIMER_INTERVAL
      ensures !ok ==> active == old(active) && inactive == old(inactive)
      ensures !ok ==> drained && written == old(written) && past.batches == old(past.batches)
      ensures !ok ==> lastSwapTs == old(lastSwapTs) && nextSwap == old(nextSwap)
    {
      ok, drained := SwapAndDrain(dropCnt, accepted, memory);
      if ok { RestartTimer(); }
    }

    method RestartTimer()
      requires Idle()
      modifies this`clock, this`lastSwapTs, this`nextSwap
      ensures Idle() && notify.swapTs <= lastSwapTs == clock && nextSwap == clock + TIMER_INTERVAL
    {
      lastSwapTs := KtimeGetNs();
      nextSwap := lastSwapTs + TIMER_INTERVAL;
    }

    method SwapAndDrain(dropCnt: nat, accepted: bool, memory: bool) returns (ok: bool, ghost drained: bool)
      requires Idle()
      modifies this`active, this`inactive, this`activeFd, this`notify, this`info, this`clock, this`past, this`written
      modifies active, inactive
      ensures Idle() && ok == accepted && Grows() && past.drained == (old(past.drained) && drained)
      ensures drained ==> Succeeded(past.batches, |old(past.batches)|)
      ensures ok ==> active == old(inactive) && inactive == old(active) && (drained ==> inactive.content == map[])
      ensures !ok ==> active == old(active) && inactive == old(inactive)
      ensures !ok ==> drained && written == old(written) && past.batches == old(past.batches)
    {
      Traffic();
      ok := SwapActiveMap(accepted);
      drained := true;
      if ok {
        var all := ReadAndClearInactiveMap(dropCnt, memory);
        drained := all;
      }
    }

    method RequestStop()
      requires Idle()
      modifies this`stopCalled
      ensures Idle() && stopCalled
    {
      stopCalled := true;
    }

    /** One round of the processor: swaps when stopping, when the timer ran out at time `now`, or when the
        datapath asked for it after the last drain had ended. */
    method Consume(readable: bool, accepted: bool, memory: bool) returns (ok: bool, ghost drained: bool, ghost now: nat)
      requires Idle()
      modifies this, active, inactive
      ensures Idle() && Grows() && stopCalled == old(stopCalled) && past.drained == (old(past.drained) && drained)
      ensures drained ==> Succeeded(past.batches, |old(past.batches)|)
      ensures old(stopped) ==> ok && past == old(past) && written == old(written)
      ensures !old(stopped) && !readable ==> !ok && past == old(past) && written == old(written)
      ensures !old(stopped) && readable ==> stopped == old(stopCalled)
      ensures now >= old(clock)
      ensures
        var due := !old(stopped) && readable && (old(stopCalled) || now >= old(nextSwap) || old(notify.swapTs) > old(lastSwapTs));
        && (active == old(inactive) && inactive == old(active) <==> due && accepted)
        && (due && accepted ==> notify.swapTs <= lastSwapTs && (drained ==> inactive.content == map[]))
        && (!(due && accepted) ==> lastSwapTs == old(lastSwapTs) && written == old(written))
    {
      ok, drained, now := true, true, clock;
      if stopped { return; }
      if !readable { return false, true, clock; }
      var events := notify;
      if stopCalled {
        var swapped;
        swapped, drained := HandleSwapEvent(events.dropCnt, accepted, memory);
        stopped := true;
        return;
      }
      var time := KtimeGetNs();
      now := time;
      if time >= nextSwap {
        ok, drained := HandleSwapEvent(events.dropCnt, accepted, memory);
      } else if lastSwapTs < events.swapTs {
        ok, drained := HandleSwapEvent(events.dropCnt, accepted, memory);
      }
    }
  }

  lemma RecordedIs(m: Log, e: Event)
    ensures e.addr !in m ==> Recorded(m, e) == m[e.addr := Stat(1, e.size, {e.reason})]
    ensures e.addr in m ==>
      Recorded(m, e) == m[e.addr := Stat(m[e.addr].packets + 1, m[e.addr].bytes + e.size, m[e.addr].reasons + {e.reason})]
  {
    PlusZero(StatOf(e));
  }

  lemma RecordedSize(m: Log, e: Event)
    ensures |Recorded(m, e)| == if e.addr in m then |m| else |m| + 1
  {
    WithKey(m, e.addr, Plus(InLog(m, e.addr), StatOf(e)));
  }

  lemma WithKey(m: Log, a: Addr, s: Stat)
    ensures |m[a := s]| == if a in m then |m| else |m| + 1
  {
    assert m[a := s].Keys == m.Keys + {a};
  }
}
