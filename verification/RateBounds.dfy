/** What the sliding-window limiter guarantees over whole runs under one fixed limit. */
module RateBounds {
  import opened Basics
  import opened MachineArith
  import opened RateLimiter

  /** Every packet is judged against `R`, is at least `lo` octets long, and its size fits the 32-bit size
      field. */
  predicate Uses(run: seq<Packet>, R: Rate, lo: nat) {
    forall i :: 0 <= i < |run| ==> run[i].rate == R && lo <= run[i].size <= UINT32_MAX
  }

  /** The most packets one window can hold: limited by the packet rate, and by as many of the smallest
      packets as the byte rate lets in. */
  function MaxPkts(R: Rate, lo: nat): nat {
    if lo == 0 then R.packets
    else
      DivMono(0, R.bytes, lo);
      Min(R.packets, R.bytes / lo)
  }

  /** The most bytes one window can hold: limited by the byte rate, and by as many of the largest packets
      as the packet rate lets in. */
  function MaxBytes(R: Rate, lo: nat): nat {
    if R.bytes < lo then 0 else Min(R.bytes, R.packets * UINT32_MAX)
  }

  /** Full windows interpolate without leaving 64 bits. */
  predicate Fits(R: Rate, W: nat, lo: nat) {
    MaxPkts(R, lo) * W < TWO64 && MaxBytes(R, lo) * W < TWO64
  }

  /** The share of a previous count that still overlaps, rounded down. */
  function Share(v: nat, overlap: nat, W: nat): nat
    requires W > 0
  {
    DivMono(0, v * overlap, W);
    v * overlap / W
  }

  lemma ShareAtMost(v: nat, overlap: nat, W: nat)
    requires W > 0 && overlap <= W
    ensures Share(v, overlap, W) <= v
  {
    MulMono(overlap, W, v);
    DivMono(v * overlap, v * W, W);
    DivModUnique(v * W, W, v, 0);
  }

  lemma SmallProduct(x: nat, bound: nat, W: nat)
    requires W >= 1 && x <= bound && bound * W < TWO64
    ensures x * W < TWO64 && x < TWO64 && Wrap(x) == x
    ensures W >= 2 ==> 2 * x < TWO64
  {
    MulMono(x, bound, W);
    MulMono(1, W, x);
    if W >= 2 { MulMono(2, W, x); }
  }

  lemma ExactEffective(curr: nat, prev: nat, overlap: nat, W: nat)
    requires W >= 2 && overlap <= W && curr * W < TWO64 && prev * W < TWO64
    ensures prev * overlap < TWO64
    ensures Effective(curr, prev, overlap, W) == curr + Share(prev, overlap, W)
  {
    MulMono(overlap, W, prev);
    SmallProduct(curr, curr, W);
    SmallProduct(prev, prev, W);
    ShareAtMost(prev, overlap, W);
    NoWrap(prev * overlap);
    NoWrap(curr + Share(prev, overlap, W));
    assert Wrap(prev * overlap) / W == Share(prev, overlap, W);
  }

  /** The decision for the next packet, in exact arithmetic over the history. */
  predicate Ideal(run: seq<Packet>, p: Packet, W: nat)
    requires W > 0
  {
    var w, overlap := p.ts / W, W - p.ts % W;
    && PktsIn(run, w, W) + Share(PktsIn(run, w - 1, W), overlap, W) < p.rate.packets
    && BytesIn(run, w, W) + Share(BytesIn(run, w - 1, W), overlap, W) + p.size <= p.rate.bytes
  }

  /** No window of the history exceeds the limit. */
  ghost predicate Bounded(run: seq<Packet>, R: Rate, W: nat, lo: nat)
    requires W > 0
  {
    forall w: int :: PktsIn(run, w, W) <= MaxPkts(R, lo) && BytesIn(run, w, W) <= MaxBytes(R, lo)
  }

  predicate Extends(run: seq<Packet>, p: Packet) {
    Monotone(run + [p])
  }

  lemma ExtendsPrefix(run: seq<Packet>, p: Packet, W: nat)
    requires W > 0 && Extends(run, p)
    ensures Monotone(run) && p.ts / W >= LastWindow(run, W)
  {
    forall i, j | 0 <= i <= j < |run| ensures run[i].ts <= run[j].ts {
      assert (run + [p])[i].ts <= (run + [p])[j].ts;
    }
    if run != [] {
      var k := |run| - 1;
      assert (run + [p])[k].ts <= (run + [p])[k + 1].ts;
      DivMono(run[k].ts, p.ts, W);
    } else {
      DivMono(0, p.ts, W);
    }
  }

  /** The slots read for packet `p` hold the history of its window and of the one before. */
  lemma SlotsRead(run: seq<Packet>, p: Packet, W: nat)
    requires W > 0 && Extends(run, p)
    ensures
      var w := p.ts / W;
      var c, v := Current(Slots(run, W), w), Previous(Slots(run, W), w);
      && c == Slot(w, Wrap(PktsIn(run, w, W)), Wrap(BytesIn(run, w, W)))
      && v.pkts == Wrap(PktsIn(run, w - 1, W)) && v.bytes == Wrap(BytesIn(run, w - 1, W))
  {
    ExtendsPrefix(run, p, W);
    SlotsReadAt(run, p.ts / W, W);
  }

  lemma SlotsReadAt(run: seq<Packet>, w: nat, W: nat)
    requires W > 0 && Monotone(run) && w >= LastWindow(run, W)
    ensures Current(Slots(run, W), w) == Slot(w, Wrap(PktsIn(run, w, W)), Wrap(BytesIn(run, w, W)))
    ensures Previous(Slots(run, W), w).pkts == Wrap(PktsIn(run, w - 1, W))
    ensures Previous(Slots(run, W), w).bytes == Wrap(BytesIn(run, w - 1, W))
  {
    RingRefinesHistory(run, W);
    ReadsAreHistory(run, w, W);
    MirrorsReads(Slots(run, W), run, w, W);
  }

  lemma MirrorsReads(b: seq<Slot>, run: seq<Packet>, w: nat, W: nat)
    requires W > 0 && |b| == 2 && Mirrors(b[w % 2 := Current(b, w)], run, w, W)
    ensures Current(b, w) == Slot(w, Wrap(PktsIn(run, w, W)), Wrap(BytesIn(run, w, W)))
    ensures Previous(b, w).pkts == Wrap(PktsIn(run, w - 1, W))
    ensures Previous(b, w).bytes == Wrap(BytesIn(run, w - 1, W))
  {
    assert b[w % 2 := Current(b, w)][(w + 1) % 2] == b[(w + 1) % 2];
  }

  /** Within the limits the 64-bit decision is the exact one. */
  lemma DecisionIsIdeal(run: seq<Packet>, p: Packet, R: Rate, W: nat, lo: nat)
    requires W >= 2 && Extends(run, p) && Bounded(run, R, W, lo) && Fits(R, W, lo)
    ensures Allows(Slots(run, W), p, W) <==> Ideal(run, p, W)
  {
    var w: int := p.ts / W;
    ReadsExact(run, p, R, W, lo);
    SharesExact(run, p, R, W, lo);
    AllowsExact(Slots(run, W), p, W, PktsIn(run, w, W), BytesIn(run, w, W), PktsIn(run, w - 1, W), BytesIn(run, w - 1, W));
  }

  lemma ReadsExact(run: seq<Packet>, p: Packet, R: Rate, W: nat, lo: nat)
    requires W >= 2 && Extends(run, p) && Bounded(run, R, W, lo) && Fits(R, W, lo)
    ensures
      var w := p.ts / W;
      && Current(Slots(run, W), w) == Slot(w, PktsIn(run, w, W), BytesIn(run, w, W))
      && Previous(Slots(run, W), w).pkts == PktsIn(run, w - 1, W)
      && Previous(Slots(run, W), w).bytes == BytesIn(run, w - 1, W)
  {
    var w: int := p.ts / W;
    SlotsRead(run, p, W);
    FitsInWindow(run, w, R, W, lo);
    FitsInWindow(run, w - 1, R, W, lo);
  }

  lemma SharesExact(run: seq<Packet>, p: Packet, R: Rate, W: nat, lo: nat)
    requires W >= 2 && Extends(run, p) && Bounded(run, R, W, lo) && Fits(R, W, lo)
    ensures
      var w: int, overlap := p.ts / W, W - p.ts % W;
      var pkts, bytes := PktsIn(run, w - 1, W), BytesIn(run, w - 1, W);
      && Effective(PktsIn(run, w, W), pkts, overlap, W) == PktsIn(run, w, W) + Share(pkts, overlap, W)
      && Effective(BytesIn(run, w, W), bytes, overlap, W) == BytesIn(run, w, W) + Share(bytes, overlap, W)
  {
    var w: int, overlap := p.ts / W, W - p.ts % W;
    FitsInWindow(run, w, R, W, lo);
    FitsInWindow(run, w - 1, R, W, lo);
    ExactEffective(PktsIn(run, w, W), PktsIn(run, w - 1, W), overlap, W);
    ExactEffective(BytesIn(run, w, W), BytesIn(run, w - 1, W), overlap, W);
  }

  lemma AllowsExact(b: seq<Slot>, p: Packet, W: nat, pkts: nat, bytes: nat, prevPkts: nat, prevBytes: nat)
    requires W > 0 && |b| == 2
    requires
      var w, overlap := p.ts / W, W - p.ts % W;
      && Current(b, w) == Slot(w, pkts, bytes) && Previous(b, w).pkts == prevPkts && Previous(b, w).bytes == prevBytes
      && Effective(pkts, prevPkts, overlap, W) == pkts + Share(prevPkts, overlap, W)
      && Effective(bytes, prevBytes, overlap, W) == bytes + Share(prevBytes, overlap, W)
    ensures
      var overlap := W - p.ts % W;
      Allows(b, p, W) <==>
        && pkts + Share(prevPkts, overlap, W) < p.rate.packets
        && bytes + Share(prevBytes, overlap, W) + p.size <= p.rate.bytes
  {
  }

  lemma FitsInWindow(run: seq<Packet>, w: int, R: Rate, W: nat, lo: nat)
    requires W >= 2 && Bounded(run, R, W, lo) && Fits(R, W, lo)
    ensures PktsIn(run, w, W) * W < TWO64 && BytesIn(run, w, W) * W < TWO64
    ensures Wrap(PktsIn(run, w, W)) == PktsIn(run, w, W) && Wrap(BytesIn(run, w, W)) == BytesIn(run, w, W)
  {
    SmallProduct(PktsIn(run, w, W), MaxPkts(R, lo), W);
    SmallProduct(BytesIn(run, w, W), MaxBytes(R, lo), W);
  }

  lemma OnePacketMore(n: nat, bytes: nat, size: nat, lo: nat)
    requires n * lo <= bytes <= n * UINT32_MAX && lo <= size <= UINT32_MAX
    ensures (n + 1) * lo <= bytes + size <= (n + 1) * UINT32_MAX
  {
    assert (n + 1) * lo == n * lo + lo;
  }

  lemma {:induction false} BytesPerPacket(run: seq<Packet>, R: Rate, w: int, W: nat, lo: nat)
    requires W > 0 && Uses(run, R, lo)
    ensures PktsIn(run, w, W) * lo <= BytesIn(run, w, W) <= PktsIn(run, w, W) * UINT32_MAX
    decreases |run|
  {
    if run != [] {
      BytesPerPacket(run[..|run| - 1], R, w, W, lo);
      HistoryStep(run, w, W);
      OnePacketMore(PktsIn(run[..|run| - 1], w, W), BytesIn(run[..|run| - 1], w, W), run[|run| - 1].size, lo);
    }
  }

  /** A count and the share read on top of it, even if its product wraps around, stay inside 64 bits. */
  predicate Uncarried(most: nat, W: nat)
    requires W > 0
  {
    most + Min(most, (TWO64 - 1) / W) < TWO64
  }

  predicate Room(R: Rate, W: nat, lo: nat)
    requires W > 0
  {
    Uncarried(MaxPkts(R, lo), W) && Uncarried(MaxBytes(R, lo), W)
  }

  lemma SmallUncarried(most: nat, W: nat)
    requires W > 0 && 2 * most < TWO64
    ensures Uncarried(most, W)
  {
    DivMono(0, TWO64 - 1, W);
  }

  lemma FitsHasRoom(R: Rate, W: nat, lo: nat)
    requires W >= 2 && Fits(R, W, lo)
    ensures Room(R, W, lo)
  {
    SmallProduct(MaxPkts(R, lo), MaxPkts(R, lo), W);
    SmallProduct(MaxBytes(R, lo), MaxBytes(R, lo), W);
    SmallUncarried(MaxPkts(R, lo), W);
    SmallUncarried(MaxBytes(R, lo), W);
  }

  lemma WrapAtMost(x: nat)
    ensures Wrap(x) <= x && Wrap(x) < TWO64
  {
  }

  /** A product that wraps around only makes the share smaller. */
  lemma WrappedShare(prev: nat, overlap: nat, W: nat)
    requires W > 0 && overlap <= W
    ensures 0 <= Wrap(prev * overlap) / W <= prev && Wrap(prev * overlap) / W <= (TWO64 - 1) / W
  {
    MulMono(0, prev, overlap);
    var x := Wrap(prev * overlap);
    WrapAtMost(prev * overlap);
    DivMono(0, x, W);
    DivMono(x, prev * overlap, W);
    DivMono(x, TWO64 - 1, W);
    ShareAtMost(prev, overlap, W);
  }

  lemma AtLeastCurrent(curr: nat, prev: nat, overlap: nat, W: nat, most: nat)
    requires W > 0 && overlap <= W && curr <= most && prev <= most && Uncarried(most, W)
    ensures Effective(curr, prev, overlap, W) >= curr
  {
    WrappedShare(prev, overlap, W);
    NoWrap(curr + Wrap(prev * overlap) / W);
  }

  /** An admitted packet finds its own window short of the limit. */
  lemma AdmittedWithin(pre: seq<Packet>, p: Packet, R: Rate, W: nat, lo: nat)
    requires W > 0 && Extends(pre, p) && p.rate == R && Bounded(pre, R, W, lo) && Room(R, W, lo)
    requires Allows(Slots(pre, W), p, W)
    ensures PktsIn(pre, p.ts / W, W) < R.packets && BytesIn(pre, p.ts / W, W) + p.size <= R.bytes
  {
    var w: int, overlap := p.ts / W, W - p.ts % W;
    SlotsRead(pre, p, W);
    CountsKept(pre, w, R, W, lo);
    CountsKept(pre, w - 1, R, W, lo);
    AtLeastCurrent(PktsIn(pre, w, W), PktsIn(pre, w - 1, W), overlap, W, MaxPkts(R, lo));
    AtLeastCurrent(BytesIn(pre, w, W), BytesIn(pre, w - 1, W), overlap, W, MaxBytes(R, lo));
  }

  lemma CountsKept(run: seq<Packet>, w: int, R: Rate, W: nat, lo: nat)
    requires W > 0 && Bounded(run, R, W, lo) && Room(R, W, lo)
    ensures PktsIn(run, w, W) <= MaxPkts(R, lo) && BytesIn(run, w, W) <= MaxBytes(R, lo)
    ensures Wrap(PktsIn(run, w, W)) == PktsIn(run, w, W) && Wrap(BytesIn(run, w, W)) == BytesIn(run, w, W)
  {
    DivMono(0, TWO64 - 1, W);
    NoWrap(PktsIn(run, w, W));
    NoWrap(BytesIn(run, w, W));
  }

  /** Every aligned window admits at most the configured packets and bytes, even where the product of a
      full window leaves 64 bits. */
  lemma {:induction false} EveryWindowBounded(run: seq<Packet>, R: Rate, W: nat, lo: nat)
    requires W > 0 && Monotone(run) && Uses(run, R, lo) && Room(R, W, lo)
    ensures Bounded(run, R, W, lo)
    decreases |run|
  {
    if run != [] {
      var k := |run| - 1;
      EveryWindowBounded(run[..k], R, W, lo);
      assert run[..k] + [run[k]] == run;
      if Admitted(run, k, W) { AdmittedWithin(run[..k], run[k], R, W, lo); }
      forall w: int ensures PktsIn(run, w, W) <= MaxPkts(R, lo) && BytesIn(run, w, W) <= MaxBytes(R, lo) {
        BytesPerPacket(run, R, w, W, lo);
        OneMoreFits(run, R, w, W, lo);
      }
    }
  }

  lemma OneMoreFits(run: seq<Packet>, R: Rate, w: int, W: nat, lo: nat)
    requires W > 0 && run != [] && Uses(run, R, lo) && Bounded(run[..|run| - 1], R, W, lo)
    requires
      var pre, p := run[..|run| - 1], run[|run| - 1];
      Admitted(run, |run| - 1, W) ==>
        PktsIn(pre, p.ts / W, W) < R.packets && BytesIn(pre, p.ts / W, W) + p.size <= R.bytes
    requires PktsIn(run, w, W) * lo <= BytesIn(run, w, W) <= PktsIn(run, w, W) * UINT32_MAX
    ensures PktsIn(run, w, W) <= MaxPkts(R, lo) && BytesIn(run, w, W) <= MaxBytes(R, lo)
  {
    var k := |run| - 1;
    HistoryStep(run, w, W);
    MaxWithin(R, lo);
    assert PktsIn(run[..k], w, W) <= MaxPkts(R, lo) && BytesIn(run[..k], w, W) <= MaxBytes(R, lo);
    WithinMax(PktsIn(run, w, W), BytesIn(run, w, W), R, lo);
  }

  lemma MaxWithin(R: Rate, lo: nat)
    ensures MaxPkts(R, lo) <= R.packets && MaxBytes(R, lo) <= R.bytes
  {
  }

  lemma WithinMax(pkts: nat, bytes: nat, R: Rate, lo: nat)
    requires pkts <= R.packets && bytes <= R.bytes && pkts * lo <= bytes <= pkts * UINT32_MAX
    ensures pkts <= MaxPkts(R, lo) && bytes <= MaxBytes(R, lo)
  {
    MulMono(pkts, R.packets, UINT32_MAX);
    if lo > 0 {
      DivMono(pkts * lo, R.bytes, lo);
      DivModUnique(pkts * lo, lo, pkts, 0);
      if R.bytes < lo {
        DivModUnique(R.bytes, lo, 0, R.bytes);
      }
    }
  }

  function Ceil(y: nat, W: nat): nat
    requires W > 0
  {
    DivMono(0, y + W - 1, W);
    (y + W - 1) / W
  }

  lemma FloorIsRest(v: nat, o: nat, W: nat)
    requires W > 0 && o <= W
    ensures Share(v, W - o, W) == v - Ceil(v * o, W)
  {
    var c := Ceil(v * o, W);
    var r := (v * o + W - 1) % W;
    assert v * o + W - 1 == c * W + r;
    calc {
      v * (W - o);
      v * W - v * o;
      v * W - c * W + (W - 1 - r);
      (v - c) * W + (W - 1 - r);
    }
    DivModUnique(v * (W - o), W, v - c, W - 1 - r);
  }

  lemma CeilMono(a: nat, b: nat, W: nat)
    requires W > 0 && a <= b
    ensures Ceil(a, W) <= Ceil(b, W)
  {
    DivMono(a + W - 1, b + W - 1, W);
  }

  /** Windows `w - 1` and `w`, up to offset `o` of the second, exceed the limit by no more than
      the share of the first window that `o` has already slid past. */
  predicate PairBounded(run: seq<Packet>, w: int, o: nat, R: Rate, W: nat)
    requires W > 0
  {
    && PktsIn(run, w, W) + PktsIn(run, w - 1, W) <= R.packets + Ceil(PktsIn(run, w - 1, W) * o, W)
    && BytesIn(run, w, W) + BytesIn(run, w - 1, W) <= R.bytes + Ceil(BytesIn(run, w - 1, W) * o, W)
  }

  lemma AdmittedPair(run: seq<Packet>, R: Rate, W: nat)
    requires W >= 2 && run != [] && run[|run| - 1].rate == R
    requires Ideal(run[..|run| - 1], run[|run| - 1], W)
    ensures PairBounded(run, run[|run| - 1].ts / W, run[|run| - 1].ts % W, R, W)
  {
    var k := |run| - 1;
    var w: int, o := run[k].ts / W, run[k].ts % W;
    HistoryStep(run, w, W);
    HistoryStep(run, w - 1, W);
    FloorIsRest(PktsIn(run[..k], w - 1, W), o, W);
    FloorIsRest(BytesIn(run[..k], w - 1, W), o, W);
  }

  lemma LaterOffset(v: nat, o: nat, o1: nat, W: nat)
    requires W > 0 && o <= o1
    ensures Ceil(v * o, W) <= Ceil(v * o1, W)
  {
    MulMono(o, o1, v);
    CeilMono(v * o, v * o1, W);
  }

  lemma DeniedPair(run: seq<Packet>, w: int, o: nat, o1: nat, R: Rate, W: nat)
    requires W > 0 && run != [] && o <= o1 && !Admitted(run, |run| - 1, W)
    requires PairBounded(run[..|run| - 1], w, o, R, W)
    ensures PairBounded(run, w, o1, R, W)
  {
    var pre := run[..|run| - 1];
    HistoryStep(run, w, W);
    HistoryStep(run, w - 1, W);
    LaterOffset(PktsIn(pre, w - 1, W), o, o1, W);
    LaterOffset(BytesIn(pre, w - 1, W), o, o1, W);
  }

  lemma EmptyPair(pre: seq<Packet>, w: int, R: Rate, W: nat, lo: nat)
    requires W > 0 && Bounded(pre, R, W, lo) && PktsIn(pre, w, W) == 0 && BytesIn(pre, w, W) == 0
    ensures PairBounded(pre, w, 0, R, W)
  {
    MaxWithin(R, lo);
    assert PktsIn(pre, w - 1, W) <= MaxPkts(R, lo) && BytesIn(pre, w - 1, W) <= MaxBytes(R, lo);
  }

  /** The pair bound holds at the last packet of every run. */
  lemma {:induction false} TwoWindowsBounded(run: seq<Packet>, R: Rate, W: nat, lo: nat)
    requires W >= 2 && Monotone(run) && Uses(run, R, lo) && Fits(R, W, lo) && run != []
    ensures PairBounded(run, run[|run| - 1].ts / W, run[|run| - 1].ts % W, R, W)
    decreases |run|
  {
    var k := |run| - 1;
    assert run[..k] + [run[k]] == run;
    FitsHasRoom(R, W, lo);
    EveryWindowBounded(run[..k], R, W, lo);
    if Admitted(run, k, W) {
      DecisionIsIdeal(run[..k], run[k], R, W, lo);
      AdmittedPair(run, R, W);
    } else if k > 0 && run[k - 1].ts / W == run[k].ts / W {
      TwoWindowsBounded(run[..k], R, W, lo);
      SameWindowOffset(run[k - 1].ts, run[k].ts, W);
      DeniedPair(run, run[k].ts / W, run[k - 1].ts % W, run[k].ts % W, R, W);
    } else {
      ExtendsPrefix(run[..k], run[k], W);
      NewWindowEmpty(run[..k], run[k].ts / W, W);
      EmptyPair(run[..k], run[k].ts / W, R, W, lo);
      DeniedPair(run, run[k].ts / W, 0, run[k].ts % W, R, W);
    }
  }

  lemma SameWindowOffset(a: nat, b: nat, W: nat)
    requires W > 0 && a <= b && a / W == b / W
    ensures a % W <= b % W
  {
    assert a == W * (a / W) + a % W && b == W * (b / W) + b % W;
  }

  lemma NewWindowEmpty(pre: seq<Packet>, w: int, W: nat)
    requires W > 0 && Monotone(pre) && (pre == [] || w > LastWindow(pre, W))
    ensures PktsIn(pre, w, W) == 0 && BytesIn(pre, w, W) == 0
  {
    if pre != [] { NothingLater(pre, w, W); }
  }

  function PktsOver(run: seq<Packet>, from: int, n: nat, W: nat): nat
    requires W > 0
  {
    if n == 0 then 0 else PktsOver(run, from, n - 1, W) + PktsIn(run, from + n - 1, W)
  }

  function BytesOver(run: seq<Packet>, from: int, n: nat, W: nat): nat
    requires W > 0
  {
    if n == 0 then 0 else BytesOver(run, from, n - 1, W) + BytesIn(run, from + n - 1, W)
  }

  /** Any `n` consecutive windows admit at most `n` times the limit. */
  lemma {:induction false} ManyWindowsBounded(run: seq<Packet>, R: Rate, from: int, n: nat, W: nat, lo: nat)
    requires W > 0 && Monotone(run) && Uses(run, R, lo) && Room(R, W, lo)
    ensures PktsOver(run, from, n, W) <= n * R.packets
    ensures BytesOver(run, from, n, W) <= n * R.bytes
    decreases n
  {
    if n > 0 {
      EveryWindowBounded(run, R, W, lo);
      ManyWindowsBounded(run, R, from, n - 1, W, lo);
      MaxWithin(R, lo);
      assert n * R.packets == (n - 1) * R.packets + R.packets;
      assert n * R.bytes == (n - 1) * R.bytes + R.bytes;
    }
  }

  lemma NothingEffective(overlap: nat, W: nat)
    requires W > 0
    ensures Effective(0, 0, overlap, W) == 0
  {
    assert 0 * overlap == 0;
    DivModUnique(0, W, 0, 0);
  }

  /** After two idle windows only the packet's own size and a zero limit can deny it. */
  lemma IdleForgets(run: seq<Packet>, p: Packet, W: nat)
    requires W > 0 && Extends(run, p)
    requires run == [] || p.ts / W >= LastWindow(run, W) + 2
    ensures Allows(Slots(run, W), p, W) <==> p.rate.packets > 0 && p.size <= p.rate.bytes
  {
    var w: int, overlap := p.ts / W, W - p.ts % W;
    SlotsRead(run, p, W);
    ExtendsPrefix(run, p, W);
    NewWindowEmpty(run, w, W);
    NewWindowEmpty(run, w - 1, W);
    NothingEffective(overlap, W);
  }

  // ----- exactly when the 64-bit interpolation can overflow

  /** The product computed for packet `p` leaves 64 bits. */
  predicate Overflows(run: seq<Packet>, p: Packet, W: nat)
    requires W > 0
  {
    var v, overlap := Previous(Slots(run, W), p.ts / W), W - p.ts % W;
    v.pkts * overlap >= TWO64 || v.bytes * overlap >= TWO64
  }

  lemma NeverOverflows(run: seq<Packet>, p: Packet, R: Rate, W: nat, lo: nat)
    requires W >= 2 && Extends(run, p) && Uses(run, R, lo) && Fits(R, W, lo)
    ensures !Overflows(run, p, W)
  {
    var w: int, overlap := p.ts / W, W - p.ts % W;
    ExtendsPrefix(run, p, W);
    FitsHasRoom(R, W, lo);
    EveryWindowBounded(run, R, W, lo);
    SlotsRead(run, p, W);
    FitsInWindow(run, w - 1, R, W, lo);
    ExactEffective(0, PktsIn(run, w - 1, W), overlap, W);
    ExactEffective(0, BytesIn(run, w - 1, W), overlap, W);
  }

  /** With a window of one tick the whole previous window always counts. */
  lemma OneTickNeverOverflows(run: seq<Packet>, p: Packet)
    requires Extends(run, p)
    ensures !Overflows(run, p, 1)
  {
    PreviousInWord(run, p);
    DivModUnique(p.ts, 1, p.ts, 0);
    OneTickProducts(Previous(Slots(run, 1), p.ts));
  }

  lemma PreviousInWord(run: seq<Packet>, p: Packet)
    requires Extends(run, p)
    ensures var v := Previous(Slots(run, 1), p.ts / 1); v.pkts < TWO64 && v.bytes < TWO64
  {
    SlotsRead(run, p, 1);
  }

  lemma OneTickProducts(v: Slot)
    requires v.pkts < TWO64 && v.bytes < TWO64
    ensures v.pkts * 1 < TWO64 && v.bytes * 1 < TWO64
  {
  }

  function Total(run: seq<Packet>): nat {
    if run == [] then 0 else Total(run[..|run| - 1]) + run[|run| - 1].size
  }

  /** A burst at time zero that stays within the limit is admitted whole. */
  lemma {:induction false} BurstAdmitted(run: seq<Packet>, R: Rate, W: nat, lo: nat)
    requires W > 0 && Uses(run, R, lo) && (forall i :: 0 <= i < |run| ==> run[i].ts == 0)
    requires |run| <= R.packets < TWO64 && Total(run) <= R.bytes < TWO64
    ensures PktsIn(run, 0, W) == |run| && BytesIn(run, 0, W) == Total(run)
    decreases |run|
  {
    if run != [] {
      var k := |run| - 1;
      var pre := run[..k];
      BurstAdmitted(pre, R, W, lo);
      assert pre + [run[k]] == run;
      ZeroTimeAllowed(pre, run[k], W);
      HistoryStep(run, 0, W);
    }
  }

  lemma ZeroTimeAllowed(pre: seq<Packet>, p: Packet, W: nat)
    requires W > 0 && Extends(pre, p) && p.ts == 0
    requires PktsIn(pre, 0, W) < p.rate.packets < TWO64
    requires BytesIn(pre, 0, W) + p.size <= p.rate.bytes < TWO64
    ensures Allows(Slots(pre, W), p, W) && p.ts / W == 0
  {
    assert p.ts / W == 0;
    SlotsRead(pre, p, W);
    AllowsInWindowZero(Slots(pre, W), p, W);
  }

  lemma AllowsInWindowZero(b: seq<Slot>, p: Packet, W: nat)
    requires W > 0 && |b| == 2 && p.ts == 0
    requires Current(b, 0).pkts < p.rate.packets < TWO64
    requires Current(b, 0).bytes + p.size <= p.rate.bytes < TWO64
    ensures Allows(b, p, W)
  {
    assert p.ts / W == 0 && p.ts % W == 0;
    assert Previous(b, 0) == Slot(0, 0, 0);
    assert 0 * W == 0;
    DivModUnique(0, W, 0, 0);
  }

  /** As few packets as possible that carry `bytes` bytes, none shorter than `lo`. */
  function Carry(bytes: nat, R: Rate, lo: nat): seq<Packet>
    requires 2 * lo <= UINT32_MAX
  {
    if bytes == 0 then []
    else if bytes <= UINT32_MAX then [Packet(0, bytes, R)]
    else if bytes < UINT32_MAX + lo then [Packet(0, bytes - lo, R), Packet(0, lo, R)]
    else Carry(bytes - UINT32_MAX, R, lo) + [Packet(0, UINT32_MAX, R)]
  }

  /** Packets at time zero that carry `bytes` bytes. */
  ghost predicate Loads(c: seq<Packet>, bytes: nat, R: Rate, lo: nat) {
    Total(c) == bytes && Uses(c, R, lo) && forall i :: 0 <= i < |c| ==> c[i].ts == 0
  }

  lemma LoadsPush(c: seq<Packet>, bytes: nat, size: nat, R: Rate, lo: nat)
    requires Loads(c, bytes, R, lo) && lo <= size <= UINT32_MAX
    ensures Loads(c + [Packet(0, size, R)], bytes + size, R, lo)
  {
    assert (c + [Packet(0, size, R)])[..|c|] == c;
  }

  lemma {:induction false} CarryFits(bytes: nat, n: nat, R: Rate, lo: nat)
    requires 2 * lo <= UINT32_MAX && bytes <= n * UINT32_MAX && (bytes == 0 || lo <= bytes)
    ensures |Carry(bytes, R, lo)| <= n && Loads(Carry(bytes, R, lo), bytes, R, lo)
    decreases bytes
  {
    assert Loads([], 0, R, lo);
    if bytes >= UINT32_MAX + lo && bytes > UINT32_MAX {
      CarryFits(bytes - UINT32_MAX, n - 1, R, lo);
      LoadsPush(Carry(bytes - UINT32_MAX, R, lo), bytes - UINT32_MAX, UINT32_MAX, R, lo);
    } else if bytes > UINT32_MAX {
      LoadsPush([], 0, bytes - lo, R, lo);
      LoadsPush([] + [Packet(0, bytes - lo, R)], bytes - lo, lo, R, lo);
      assert [] + [Packet(0, bytes - lo, R)] + [Packet(0, lo, R)] == Carry(bytes, R, lo);
    } else if bytes > 0 {
      LoadsPush([], 0, bytes, R, lo);
      assert [] + [Packet(0, bytes, R)] == Carry(bytes, R, lo);
    }
  }

  /** The smallest packets, `n` of them. */
  function Burst(n: nat, R: Rate, lo: nat): seq<Packet> { seq(n, _ => Packet(0, lo, R)) }

  lemma {:induction false} BurstLoads(n: nat, R: Rate, lo: nat)
    requires lo <= UINT32_MAX
    ensures Loads(Burst(n, R, lo), n * lo, R, lo)
    decreases n
  {
    if n > 0 {
      BurstLoads(n - 1, R, lo);
      LoadsPush(Burst(n - 1, R, lo), (n - 1) * lo, lo, R, lo);
      assert Burst(n, R, lo) == Burst(n - 1, R, lo) + [Packet(0, lo, R)];
      assert n * lo == (n - 1) * lo + lo;
    }
  }

  lemma BurstFits(R: Rate, lo: nat)
    ensures MaxPkts(R, lo) * lo <= R.bytes
  {
    if lo > 0 {
      DivBounds(R.bytes, lo);
      DivMono(0, R.bytes, lo);
      MulMono(MaxPkts(R, lo), R.bytes / lo, lo);
    }
  }

  /** The run that fills window 0 up to what the limits let in, by count or by bytes. */
  function Filling(R: Rate, W: nat, lo: nat): seq<Packet>
    requires 2 * lo <= UINT32_MAX
  {
    if MaxPkts(R, lo) * W >= TWO64 then Burst(MaxPkts(R, lo), R, lo) else Carry(MaxBytes(R, lo), R, lo)
  }

  lemma FillingAdmitted(R: Rate, W: nat, lo: nat)
    requires W > 0 && R.packets < TWO64 && R.bytes < TWO64 && 2 * lo <= UINT32_MAX
    ensures var run := Filling(R, W, lo);
      && Uses(run, R, lo) && (forall i :: 0 <= i < |run| ==> run[i].ts == 0)
      && PktsIn(run, 0, W) == |run| < TWO64 && BytesIn(run, 0, W) == Total(run) < TWO64
      && (if MaxPkts(R, lo) * W >= TWO64 then |run| == MaxPkts(R, lo) else Total(run) == MaxBytes(R, lo))
  {
    MaxWithin(R, lo);
    if MaxPkts(R, lo) * W >= TWO64 {
      BurstLoads(MaxPkts(R, lo), R, lo);
      BurstFits(R, lo);
    } else {
      CarryReaches(R, lo);
    }
    BurstAdmitted(Filling(R, W, lo), R, W, lo);
  }

  lemma CarryReaches(R: Rate, lo: nat)
    requires 2 * lo <= UINT32_MAX
    ensures var c := Carry(MaxBytes(R, lo), R, lo); |c| <= R.packets && Loads(c, MaxBytes(R, lo), R, lo)
  {
    if R.packets > 0 { MulMono(1, R.packets, UINT32_MAX); }
    CarryFits(MaxBytes(R, lo), R.packets, R, lo);
  }

  /** Where full windows do not fit, the run that fills one overflows at the next. */
  lemma FillingOverflows(R: Rate, W: nat, lo: nat)
    requires W >= 2 && R.packets < TWO64 && R.bytes < TWO64 && 2 * lo <= UINT32_MAX && !Fits(R, W, lo)
    ensures
      var run, p := Filling(R, W, lo), Packet(W, lo, R);
      Extends(run, p) && Uses(run + [p], R, lo) && Overflows(run, p, W)
  {
    FillingAdmitted(R, W, lo);
    FullWindowOverflows(Filling(R, W, lo), Packet(W, lo, R), W);
  }

  lemma FullWindowOverflows(run: seq<Packet>, p: Packet, W: nat)
    requires W > 0 && (forall i :: 0 <= i < |run| ==> run[i].ts == 0) && p.ts == W
    requires PktsIn(run, 0, W) < TWO64 && BytesIn(run, 0, W) < TWO64
    requires PktsIn(run, 0, W) * W >= TWO64 || BytesIn(run, 0, W) * W >= TWO64
    ensures Extends(run, p) && Overflows(run, p, W)
  {
    DivModUnique(W, W, 1, 0);
    WindowZeroRead(run, W);
    OverlapWhole(Previous(Slots(run, W), 1), PktsIn(run, 0, W), BytesIn(run, 0, W), W);
  }

  lemma WindowZeroRead(run: seq<Packet>, W: nat)
    requires W > 0 && forall i :: 0 <= i < |run| ==> run[i].ts == 0
    ensures Previous(Slots(run, W), 1).pkts == Wrap(PktsIn(run, 0, W))
    ensures Previous(Slots(run, W), 1).bytes == Wrap(BytesIn(run, 0, W))
  {
    DivModUnique(0, W, 0, 0);
    SlotsReadAt(run, 1, W);
  }

  lemma OverlapWhole(v: Slot, pkts: nat, bytes: nat, W: nat)
    requires pkts < TWO64 && bytes < TWO64 && v.pkts == Wrap(pkts) && v.bytes == Wrap(bytes)
    requires pkts * W >= TWO64 || bytes * W >= TWO64
    ensures v.pkts * W >= TWO64 || v.bytes * W >= TWO64
  {
    NoWrap(pkts);
    NoWrap(bytes);
  }

  /** Some run of packets of at least `lo` octets under limit `R` overflows the interpolation exactly when
      a full window does not fit. */
  lemma OverflowIff(R: Rate, W: nat, lo: nat)
    requires W >= 2 && R.packets < TWO64 && R.bytes < TWO64 && 2 * lo <= UINT32_MAX
    ensures !Fits(R, W, lo) <==> exists run, p :: Extends(run, p) && Uses(run + [p], R, lo) && Overflows(run, p, W)
  {
    if Fits(R, W, lo) {
      forall run, p | Extends(run, p) && Uses(run + [p], R, lo) ensures !Overflows(run, p, W) {
        assert forall i :: 0 <= i < |run| ==> run[i] == (run + [p])[i];
        NeverOverflows(run, p, R, W, lo);
      }
    } else {
      FillingOverflows(R, W, lo);
    }
  }

  /** As soon as packets are not empty, only the bytes can overflow. */
  lemma BytesDecide(R: Rate, W: nat, lo: nat)
    requires lo > 0
    ensures Fits(R, W, lo) <==> MaxBytes(R, lo) * W < TWO64
  {
    MulMono(1, UINT32_MAX, R.packets);
    BurstFits(R, lo);
    MulMono(1, lo, MaxPkts(R, lo));
    if R.bytes < lo {
      DivModUnique(R.bytes, lo, 0, R.bytes);
    }
    MulMono(MaxPkts(R, lo), MaxBytes(R, lo), W);
  }

  // ----- a window of one tick, and a pair of windows that is not bounded

  /** With windows of one tick, windows `w - 1` and `w` together stay within the limit. */
  predicate PairWithin(run: seq<Packet>, w: int, R: Rate) {
    && PktsIn(run, w, 1) + PktsIn(run, w - 1, 1) <= R.packets
    && BytesIn(run, w, 1) + BytesIn(run, w - 1, 1) <= R.bytes
  }

  /** In a window of one tick nothing slides out: the sum is exact whatever the limits are. */
  lemma {:induction false} OneTickPairs(run: seq<Packet>, R: Rate, lo: nat, w: int)
    requires Monotone(run) && Uses(run, R, lo) && R.packets < TWO64 && R.bytes < TWO64
    ensures PairWithin(run, w, R)
    decreases |run|
  {
    if run != [] {
      var k := |run| - 1;
      var pre, p := run[..k], run[k];
      assert Uses(pre, R, lo) && Monotone(pre);
      OneTickPairs(pre, R, lo, w);
      OneTickPairs(pre, R, lo, p.ts);
      assert pre + [p] == run;
      OneTickNext(pre, p, R, w);
    }
  }

  lemma OneTickNext(pre: seq<Packet>, p: Packet, R: Rate, w: int)
    requires Extends(pre, p) && p.rate == R && R.packets < TWO64 && R.bytes < TWO64
    requires PairWithin(pre, w, R) && PairWithin(pre, p.ts, R)
    ensures PairWithin(pre + [p], w, R)
  {
    var run := pre + [p];
    assert run[..|pre|] == pre;
    DivModUnique(p.ts, 1, p.ts, 0);
    NothingLater(run, p.ts + 1, 1);
    if Admitted(run, |pre|, 1) { OneTickAdmits(pre, p, R); }
    OneTickStep(pre, p, run, R, w);
  }

  /** What packet `p` adds to window `w`. */
  lemma TickStep(pre: seq<Packet>, p: Packet, run: seq<Packet>, w: int)
    requires run == pre + [p]
    ensures
      var here := Admitted(run, |pre|, 1) && p.ts == w;
      && PktsIn(run, w, 1) == PktsIn(pre, w, 1) + (if here then 1 else 0)
      && BytesIn(run, w, 1) == BytesIn(pre, w, 1) + (if here then p.size else 0)
  {
    assert run[..|pre|] == pre;
    DivModUnique(p.ts, 1, p.ts, 0);
    HistoryStep(run, w, 1);
  }

  lemma OneTickStep(pre: seq<Packet>, p: Packet, run: seq<Packet>, R: Rate, w: int)
    requires run == pre + [p] && PktsIn(run, p.ts + 1, 1) == 0 && BytesIn(run, p.ts + 1, 1) == 0
    requires PairWithin(pre, w, R)
    requires Admitted(run, |pre|, 1) ==>
      && PktsIn(pre, p.ts, 1) + PktsIn(pre, p.ts - 1, 1) < R.packets
      && BytesIn(pre, p.ts, 1) + BytesIn(pre, p.ts - 1, 1) + p.size <= R.bytes
    ensures PairWithin(run, w, R)
  {
    TickStep(pre, p, run, w);
    TickStep(pre, p, run, w - 1);
    var ok := Admitted(run, |pre|, 1);
    TickSums(ok && p.ts == w, ok && p.ts == w - 1, 1, PktsIn(pre, w, 1), PktsIn(pre, w - 1, 1),
             PktsIn(run, w, 1), PktsIn(run, w - 1, 1), R.packets);
    TickSums(ok && p.ts == w, ok && p.ts == w - 1, p.size, BytesIn(pre, w, 1), BytesIn(pre, w - 1, 1),
             BytesIn(run, w, 1), BytesIn(run, w - 1, 1), R.bytes);
  }

  lemma TickSums(here: bool, before: bool, more: nat, c: nat, v: nat, c1: nat, v1: nat, limit: nat)
    requires c + v <= limit && c1 == c + (if here then more else 0) && v1 == v + (if before then more else 0)
    requires (here ==> !before && c + v + more <= limit) && (before ==> c1 == 0 && v + more <= limit)
    ensures c1 + v1 <= limit
  {
  }

  lemma OneTickAdmits(pre: seq<Packet>, p: Packet, R: Rate)
    requires Extends(pre, p) && p.rate == R && R.packets < TWO64 && R.bytes < TWO64 && Allows(Slots(pre, 1), p, 1)
    requires PairWithin(pre, p.ts, R)
    ensures PktsIn(pre, p.ts, 1) + PktsIn(pre, p.ts - 1, 1) < R.packets
    ensures BytesIn(pre, p.ts, 1) + BytesIn(pre, p.ts - 1, 1) + p.size <= R.bytes
  {
    DivModUnique(p.ts, 1, p.ts, 0);
    SlotsRead(pre, p, 1);
    OneTickEffective(PktsIn(pre, p.ts, 1), PktsIn(pre, p.ts - 1, 1));
    OneTickEffective(BytesIn(pre, p.ts, 1), BytesIn(pre, p.ts - 1, 1));
  }

  lemma OneTickEffective(curr: nat, prev: nat)
    requires curr + prev < TWO64
    ensures Effective(Wrap(curr), Wrap(prev), 1, 1) == curr + prev
  {
    NoWrap(curr);
    NoWrap(prev);
    NoWrap(curr + prev);
  }

  /** Fills window 0 to the byte limit, then sends one packet at the start of window 1. */
  function Breaking(R: Rate, W: nat, lo: nat): seq<Packet>
    requires 2 * lo <= UINT32_MAX
  {
    Carry(R.bytes, R, lo) + [Packet(W, lo, R)]
  }

  /** Where the bytes of a full window overflow, the packet after it is admitted although the two windows
      together have used up the limit. */
  lemma PairBreaks(R: Rate, W: nat, lo: nat)
    requires W > 0 && 1 <= lo && 2 * lo <= UINT32_MAX && lo <= R.bytes < TWO64 && R.packets < TWO64
    requires R.bytes * W >= TWO64 >= lo * W && |Carry(R.bytes, R, lo)| < R.packets && R.bytes <= R.packets * UINT32_MAX
    ensures
      var run := Breaking(R, W, lo);
      && Monotone(run) && Uses(run, R, lo) && Admitted(run, |run| - 1, W)
      && !PairBounded(run, 1, 0, R, W)
  {
    var full, p := Carry(R.bytes, R, lo), Packet(W, lo, R);
    CarryFits(R.bytes, R.packets, R, lo);
    BurstAdmitted(full, R, W, lo);
    NothingInWindowOne(full, W);
    OverflownAllows(full, p, R, W, lo);
    assert (full + [p])[..|full|] == full;
    PairExceeds(full, p, R, W);
  }

  lemma PairExceeds(full: seq<Packet>, p: Packet, R: Rate, W: nat)
    requires W > 0 && p.ts == W && p.size > 0 && Admitted(full + [p], |full|, W)
    requires BytesIn(full, 0, W) == R.bytes && BytesIn(full, 1, W) == 0
    ensures !PairBounded(full + [p], 1, 0, R, W)
  {
    var run := full + [p];
    assert run[..|full|] == full;
    DivModUnique(W, W, 1, 0);
    HistoryStep(run, 1, W);
    HistoryStep(run, 0, W);
    NothingSlidOut(R.bytes, W);
  }

  lemma NothingSlidOut(v: nat, W: nat)
    requires W > 0
    ensures Ceil(v * 0, W) == 0
  {
    DivModUnique(W - 1, W, 0, W - 1);
  }

  lemma NothingInWindowOne(run: seq<Packet>, W: nat)
    requires W > 0 && forall i :: 0 <= i < |run| ==> run[i].ts == 0
    ensures PktsIn(run, 1, W) == 0 && BytesIn(run, 1, W) == 0
  {
    DivModUnique(0, W, 0, 0);
    NothingLater(run, 1, W);
  }

  lemma OverflownAllows(full: seq<Packet>, p: Packet, R: Rate, W: nat, lo: nat)
    requires W > 0 && p == Packet(W, lo, R) && Extends(full, p) && lo <= R.bytes < TWO64 && R.packets < TWO64
    requires PktsIn(full, 1, W) == 0 && BytesIn(full, 1, W) == 0
    requires PktsIn(full, 0, W) < R.packets && BytesIn(full, 0, W) == R.bytes && R.bytes * W >= TWO64 >= lo * W
    ensures Allows(Slots(full, W), p, W)
  {
    DivModUnique(W, W, 1, 0);
    SlotsRead(full, p, W);
    NoWrap(PktsIn(full, 0, W));
    NoWrap(R.bytes);
    OverflownSlotAllows(Slots(full, W), p, W, PktsIn(full, 0, W));
  }

  lemma OverflownSlotAllows(b: seq<Slot>, p: Packet, W: nat, pkts: nat)
    requires W > 0 && |b| == 2 && p.ts == W && p.ts / W == 1 && p.ts % W == 0
    requires Current(b, 1) == Slot(1, 0, 0) && Previous(b, 1).pkts == pkts && Previous(b, 1).bytes == p.rate.bytes
    requires pkts < p.rate.packets < TWO64 && p.rate.bytes < TWO64 && p.rate.bytes * W >= TWO64 >= p.size * W
    requires p.size <= p.rate.bytes
    ensures Allows(b, p, W)
  {
    WrappedShare(pkts, W, W);
    OverflownShare(p.rate.bytes, W, p.size);
    NoWrap(Wrap(pkts * W) / W);
    NoWrap(Wrap(p.rate.bytes * W) / W);
  }

  lemma OverflownShare(bytes: nat, W: nat, lo: nat)
    requires W > 0 && bytes * W >= TWO64 >= lo * W
    ensures 0 <= Wrap(bytes * W) / W <= bytes - lo
  {
    var x := Wrap(bytes * W);
    assert x <= bytes * W - TWO64;
    assert (bytes - lo) * W == bytes * W - lo * W;
    DivMono(0, x, W);
    DivMono(x, (bytes - lo) * W, W);
    DivModUnique((bytes - lo) * W, W, bytes - lo, 0);
  }
}
