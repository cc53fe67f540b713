/** Two-slot sliding-window rate limiter. */
module RateLimiter {
  import opened MachineArith

  datatype Slot = Slot(window: nat, pkts: nat, bytes: nat)

  datatype Rate = Rate(packets: nat, bytes: nat)

  /** Window parameters as stored in the configuration. */
  datatype RlWindow = RlWindow(jiffies: nat, shift: nat, mask: nat) {
    predicate Valid() {
      jiffies == Pow2(shift) && mask == jiffies - 1
    }
  }

  /** One packet charged to the bucket: arrival time in jiffies, size, and the limit in force. */
  datatype Packet = Packet(ts: nat, size: nat, rate: Rate)

  /** The slot of window `w`, recycled when it still belongs to another window. */
  function Current(b: seq<Slot>, w: nat): Slot
    requires |b| == 2
  {
    if b[w % 2].window == w then b[w % 2] else Slot(w, 0, 0)
  }

  /** The slot of window `w - 1`, or nothing when that window left no trace. */
  function Previous(b: seq<Slot>, w: nat): Slot
    requires |b| == 2
  {
    if w != 0 && b[(w + 1) % 2].window == w - 1 then b[(w + 1) % 2] else Slot(0, 0, 0)
  }

  /** Current count plus the share of the previous window that still overlaps. */
  function Effective(curr: nat, prev: nat, overlap: nat, W: nat): nat
    requires W > 0
  {
    Wrap(curr + Wrap(prev * overlap) / W)
  }

  predicate Allows(b: seq<Slot>, p: Packet, W: nat)
    requires |b| == 2 && W > 0
  {
    var w, overlap := p.ts / W, W - p.ts % W;
    var c, v := Current(b, w), Previous(b, w);
    && Effective(c.pkts, v.pkts, overlap, W) < p.rate.packets
    && p.size <= p.rate.bytes
    && Effective(c.bytes, v.bytes, overlap, W) <= p.rate.bytes - p.size
  }

  /** The slots after `p`: the current slot is recycled, and charged when the packet is admitted. */
  function Charge(b: seq<Slot>, p: Packet, W: nat): (r: seq<Slot>)
    requires |b| == 2 && W > 0
    ensures |r| == 2
  {
    Charged(b, p.ts / W, p.size, Allows(b, p, W))
  }

  function Charged(b: seq<Slot>, w: nat, size: nat, ok: bool): (r: seq<Slot>)
    requires |b| == 2
    ensures |r| == 2
  {
    var c := Current(b, w);
    b[w % 2 := if ok then Slot(w, Wrap(c.pkts + 1), Wrap(c.bytes + size)) else c]
  }

  /** The interpolation as the code computes it, with a shift instead of the division. */
  function EffectiveShift(curr: nat, prev: nat, overlap: nat, shift: nat): (r: nat)
    ensures r == Effective(curr, prev, overlap, Pow2(shift))
  {
    ShrIsDiv(Wrap(prev * overlap), shift);
    Wrap(curr + Shr(Wrap(prev * overlap), shift))
  }

  function WindowIndex(ts: nat, w: RlWindow): (r: nat)
    requires w.Valid()
    ensures r == ts / w.jiffies
  {
    ShrIsDiv(ts, w.shift);
    Shr(ts, w.shift)
  }

  function WindowOffset(ts: nat, w: RlWindow): (r: nat)
    requires w.Valid()
    ensures r == ts % w.jiffies
  {
    AndMaskIsMod(ts, w.shift);
    And(ts, w.mask)
  }

  /** The slot a window lives in: its lowest bit. */
  function SlotIndex(window: nat): (r: nat)
    ensures r == window % 2
  {
    AndMaskIsMod(window, 1);
    assert Pow2(1) == 2;
    And(window, 1)
  }

  method IsWithinRlimit(p: Packet, w: RlWindow, slot: array<Slot>) returns (ok: bool)
    requires slot.Length == 2 && w.Valid()
    modifies slot
    ensures ok == Allows(old(slot[..]), p, w.jiffies)
    ensures slot[..] == Charge(old(slot[..]), p, w.jiffies)
  {
    ghost var b := slot[..];
    var windowIdx := WindowIndex(p.ts, w);
    var overlap := w.jiffies - WindowOffset(p.ts, w);
    var curr := SlotIndex(windowIdx);
    var prev := SlotIndex(windowIdx + 1);
    if slot[curr].window != windowIdx {
      slot[curr] := Slot(windowIdx, 0, 0);
    }
    var c := slot[curr];
    assert c == Current(b, windowIdx);
    var v := Slot(0, 0, 0);
    if windowIdx != 0 && slot[prev].window == windowIdx - 1 {
      v := slot[prev];
    }
    assert v == Previous(b, windowIdx);
    ok := Decide(c, v, p, overlap, w);
    if ok {
      slot[curr] := Slot(windowIdx, Wrap(c.pkts + 1), Wrap(c.bytes + p.size));
    }
    assert slot[..] == Charged(b, windowIdx, p.size, ok);
  }

  /** The three early exits of the check. */
  method Decide(c: Slot, v: Slot, p: Packet, overlap: nat, w: RlWindow) returns (ok: bool)
    requires w.Valid()
    ensures ok <==>
      && Effective(c.pkts, v.pkts, overlap, w.jiffies) < p.rate.packets
      && p.size <= p.rate.bytes
      && Effective(c.bytes, v.bytes, overlap, w.jiffies) <= p.rate.bytes - p.size
  {
    var effectivePkts := EffectiveShift(c.pkts, v.pkts, overlap, w.shift);
    var effectiveBytes := EffectiveShift(c.bytes, v.bytes, overlap, w.shift);
    if effectivePkts >= p.rate.packets { return false; }
    if p.size > p.rate.bytes { return false; }
    if effectiveBytes > p.rate.bytes - p.size { return false; }
    return true;
  }

  // ----- runs from a zeroed bucket

  const ZeroBucket: seq<Slot> := [Slot(0, 0, 0), Slot(0, 0, 0)]

  function Slots(run: seq<Packet>, W: nat): (b: seq<Slot>)
    requires W > 0
    ensures |b| == 2
  {
    if run == [] then ZeroBucket else Charge(Slots(run[..|run| - 1], W), run[|run| - 1], W)
  }

  /** Whether packet `k` of the run was admitted. */
  predicate Admitted(run: seq<Packet>, k: nat, W: nat)
    requires W > 0 && k < |run|
  {
    Allows(Slots(run[..k], W), run[k], W)
  }

  /** The history the two slots stand for: packets and bytes admitted in window `w`. */
  function PktsIn(run: seq<Packet>, w: int, W: nat): nat
    requires W > 0
  {
    if run == [] then 0
    else var k := |run| - 1;
      PktsIn(run[..k], w, W) + if Admitted(run, k, W) && run[k].ts / W == w then 1 else 0
  }

  function BytesIn(run: seq<Packet>, w: int, W: nat): nat
    requires W > 0
  {
    if run == [] then 0
    else var k := |run| - 1;
      BytesIn(run[..k], w, W) + if Admitted(run, k, W) && run[k].ts / W == w then run[k].size else 0
  }

  predicate Monotone(run: seq<Packet>) {
    forall i, j :: 0 <= i <= j < |run| ==> run[i].ts <= run[j].ts
  }

  /** The window of the latest packet. */
  function LastWindow(run: seq<Packet>, W: nat): nat
    requires W > 0
  {
    if run == [] then 0 else run[|run| - 1].ts / W
  }

  /** The ring holds (pkts, bytes) for window `t` and (prevPkts, prevBytes) for the window before. */
  predicate Ring(b: seq<Slot>, t: nat, pkts: nat, bytes: nat, prevPkts: nat, prevBytes: nat) {
    && |b| == 2
    && b[t % 2] == Slot(t, pkts, bytes)
    && (t == 0 ==> prevPkts == prevBytes == 0)
    && Previous(b, t).pkts == prevPkts && Previous(b, t).bytes == prevBytes
    && b[(t + 1) % 2].window <= t
  }

  ghost predicate Mirrors(b: seq<Slot>, run: seq<Packet>, t: nat, W: nat)
    requires W > 0
  {
    Ring(b, t, Wrap(PktsIn(run, t, W)), Wrap(BytesIn(run, t, W)),
         Wrap(PktsIn(run, t - 1, W)), Wrap(BytesIn(run, t - 1, W)))
  }

  lemma {:induction false} NothingLater(run: seq<Packet>, w: int, W: nat)
    requires W > 0 && Monotone(run) && (w > LastWindow(run, W) || w < 0)
    ensures PktsIn(run, w, W) == 0 && BytesIn(run, w, W) == 0
    decreases |run|
  {
    if run != [] {
      var k := |run| - 1;
      if k > 0 { DivMono(run[k - 1].ts, run[k].ts, W); }
      DivMono(0, run[k].ts, W);
      NothingLater(run[..k], w, W);
    }
  }

  /** Moving on to window `w`, with every later window still empty. */
  lemma RingAdvance(b: seq<Slot>, t: nat, w: nat, pkts: nat, bytes: nat, prevPkts: nat, prevBytes: nat)
    requires Ring(b, t, pkts, bytes, prevPkts, prevBytes) && t <= w
    ensures
      var c := b[w % 2 := Current(b, w)];
      Ring(c, w, if w == t then pkts else 0, if w == t then bytes else 0,
           if w == t then prevPkts else if w == t + 1 then pkts else 0,
           if w == t then prevBytes else if w == t + 1 then bytes else 0)
  {
  }

  /** The slots, brought to window `w` of the next packet, are the history of `w` and `w - 1`. */
  lemma ReadsAreHistory(run: seq<Packet>, w: nat, W: nat)
    requires W > 0 && Monotone(run) && w >= LastWindow(run, W)
    requires Mirrors(Slots(run, W), run, LastWindow(run, W), W)
    ensures Mirrors(Slots(run, W)[w % 2 := Current(Slots(run, W), w)], run, w, W)
  {
    var t: int := LastWindow(run, W);
    RingAdvance(Slots(run, W), t, w, Wrap(PktsIn(run, t, W)), Wrap(BytesIn(run, t, W)),
                Wrap(PktsIn(run, t - 1, W)), Wrap(BytesIn(run, t - 1, W)));
    if w > t { NothingLater(run, w, W); }
    if w > t + 1 { NothingLater(run, w - 1, W); }
  }

  /** The two-slot ring refines the unbounded per-window history, over every run of
      non-decreasing timestamps, whatever the jumps and the limits in force. */
  lemma {:induction false} RingRefinesHistory(run: seq<Packet>, W: nat)
    requires W > 0 && Monotone(run)
    ensures Mirrors(Slots(run, W), run, LastWindow(run, W), W)
    decreases |run|
  {
    if run != [] {
      var k := |run| - 1;
      var pre, w := run[..k], run[k].ts / W;
      RingRefinesHistory(pre, W);
      if k > 0 { DivMono(run[k - 1].ts, run[k].ts, W); }
      ReadsAreHistory(pre, w, W);
      RefineStep(run, w, W);
    }
  }

  lemma RefineStep(run: seq<Packet>, w: nat, W: nat)
    requires W > 0 && run != [] && w == run[|run| - 1].ts / W
    requires var b := Slots(run[..|run| - 1], W);
      Mirrors(b[w % 2 := Current(b, w)], run[..|run| - 1], w, W)
    ensures Mirrors(Slots(run, W), run, w, W)
  {
    var k := |run| - 1;
    var pre, ok, before: int := run[..k], Admitted(run, k, W), w as int - 1;
    HistoryStep(run, w, W);
    HistoryStep(run, before, W);
    RingCharge(Slots(pre, W), w, run[k].size, ok, PktsIn(pre, w, W), BytesIn(pre, w, W),
               Wrap(PktsIn(pre, before, W)), Wrap(BytesIn(pre, before, W)));
    assert Slots(run, W) == Charged(Slots(pre, W), w, run[k].size, ok);
    assert PktsIn(run, w, W) == PktsIn(pre, w, W) + if ok then 1 else 0;
    assert BytesIn(run, w, W) == BytesIn(pre, w, W) + if ok then run[k].size else 0;
    assert PktsIn(run, before, W) == PktsIn(pre, before, W) && BytesIn(run, before, W) == BytesIn(pre, before, W);
  }

  lemma HistoryStep(run: seq<Packet>, w: int, W: nat)
    requires W > 0 && run != []
    ensures
      var k := |run| - 1;
      var here := Admitted(run, k, W) && run[k].ts / W == w;
      && PktsIn(run, w, W) == PktsIn(run[..k], w, W) + (if here then 1 else 0)
      && BytesIn(run, w, W) == BytesIn(run[..k], w, W) + (if here then run[k].size else 0)
  {
  }

  lemma RingCharge(b: seq<Slot>, w: nat, size: nat, ok: bool, pkts: nat, bytes: nat, prevPkts: nat, prevBytes: nat)
    requires |b| == 2
    requires Ring(b[w % 2 := Current(b, w)], w, Wrap(pkts), Wrap(bytes), prevPkts, prevBytes)
    ensures Ring(Charged(b, w, size, ok), w,
                 Wrap(pkts + if ok then 1 else 0), Wrap(bytes + if ok then size else 0), prevPkts, prevBytes)
  {
  }
}
