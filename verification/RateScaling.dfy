/** Userspace side of the limiter: rounding the window to a power of two and scaling the limits to it. */
module RateScaling {
  import opened Basics
  import opened MachineArith
  import opened RateLimiter
  import opened RateBounds

  /** The largest input whose power-of-two ceiling fits 32 bits. */
  const MAX_HZ: nat := 0x8000_0000

  /** The exponent of the least power of two that is at least `v`, searched from `k` up. */
  function CeilLog2(v: nat, k: nat): nat
    decreases if Pow2(k) < v then v - Pow2(k) else 0
  {
    if Pow2(k) >= v then k else CeilLog2(v, k + 1)
  }

  function BitCeil(v: nat): nat { Pow2(CeilLog2(v, 0)) }

  function RoundPow2(v: nat): nat {
    if v <= 1 then 1
    else
      var hi := BitCeil(v);
      var lo := hi / 2;
      if v == hi then hi else if v - lo < hi - v then lo else hi
  }

  function TrailingZeros(v: nat): nat
    requires v > 0
  {
    if v % 2 == 1 then 0 else 1 + TrailingZeros(v / 2)
  }

  function Distance(a: int, b: int): nat { if a >= b then a - b else b - a }

  lemma {:induction false} CeilLog2Least(v: nat, k: nat)
    requires k == 0 || Pow2(k - 1) < v
    ensures Pow2(CeilLog2(v, k)) >= v
    ensures CeilLog2(v, k) >= k
    ensures CeilLog2(v, k) > 0 ==> Pow2(CeilLog2(v, k) - 1) < v
    decreases if Pow2(k) < v then v - Pow2(k) else 0
  {
    if Pow2(k) < v { CeilLog2Least(v, k + 1); }
  }

  lemma CeilAtMost(v: nat, e: nat)
    requires 2 <= v <= Pow2(e)
    ensures CeilLog2(v, 0) <= e && BitCeil(v) <= Pow2(e)
  {
    CeilLog2Least(v, 0);
    var n := CeilLog2(v, 0);
    assert Pow2(0) == 1;
    Pow2Order(n - 1, e);
    Pow2Mono(n, e);
  }

  /** The rounded value is a power of two, no power of two is nearer, and a tie goes up. */
  lemma RoundPow2Nearest(v: nat, j: nat)
    ensures exists k: nat :: RoundPow2(v) == Pow2(k)
    ensures Distance(Pow2(j), v) >= Distance(RoundPow2(v), v)
    ensures Distance(Pow2(j), v) == Distance(RoundPow2(v), v) ==> Pow2(j) <= RoundPow2(v)
  {
    if v <= 1 {
      assert RoundPow2(v) == Pow2(0);
    } else {
      var k := CeilLog2(v, 0);
      CeilLog2Least(v, 0);
      assert Pow2(0) == 1;
      assert Pow2(k) == 2 * Pow2(k - 1);
      assert RoundPow2(v) == Pow2(k) || RoundPow2(v) == Pow2(k - 1);
      if j >= k { Pow2Mono(k, j); } else { Pow2Mono(j, k - 1); }
    }
  }

  /** Counting trailing zeros inverts the power of two. */
  lemma {:induction false} TrailingZerosOfPow2(k: nat)
    ensures TrailingZeros(Pow2(k)) == k
  {
    if k > 0 { TrailingZerosOfPow2(k - 1); }
  }

  /** The window parameters the manager derives from the tick frequency. */
  function WindowFor(hz: nat): RlWindow {
    var jiffies := RoundPow2(hz);
    assert jiffies > 0 by { RoundPow2Nearest(hz, 0); }
    RlWindow(jiffies, TrailingZeros(jiffies), jiffies - 1)
  }

  lemma WindowForValid(hz: nat)
    ensures WindowFor(hz).Valid()
    ensures hz <= MAX_HZ ==> WindowFor(hz).jiffies <= MAX_HZ
    ensures hz >= 2 ==> WindowFor(hz).jiffies >= 2
  {
    RoundPow2Nearest(hz, 0);
    var k: nat :| RoundPow2(hz) == Pow2(k);
    TrailingZerosOfPow2(k);
    if 2 <= hz <= MAX_HZ {
      Pow2At31();
      CeilAtMost(hz, 31);
    }
    if hz >= 2 { RoundAtLeastTwo(hz); }
  }

  lemma Pow2At31()
    ensures Pow2(31) == MAX_HZ
  {
    assert Pow2(8) == 256;
    assert Pow2(16) == 65536;
    assert Pow2(24) == 16777216;
  }

  lemma RoundAtLeastTwo(v: nat)
    requires v >= 2
    ensures RoundPow2(v) >= 2
  {
    CeilLog2Least(v, 0);
    assert Pow2(1) == 2;
    RoundPow2Nearest(v, 1);
  }

  /** UINT64_MAX >> shift: the largest rate the configuration accepts. */
  function MaxRate(w: RlWindow): nat { Shr(TWO64 - 1, w.shift) }

  /** A per-second rate as a per-window limit. */
  function Scale(rlps: nat, w: RlWindow, hz: nat): nat
    requires hz > 0
  {
    if rlps == 0 then 0 else Max(1, Wrap(rlps * Pow2(w.shift)) / hz)
  }

  /** The shift in the scaling never loses bits of an accepted rate. */
  lemma ScaleKeepsAllBits(rlps: nat, w: RlWindow)
    requires w.Valid() && rlps <= MaxRate(w)
    ensures rlps * w.jiffies < TWO64
  {
    ShrIsDiv(TWO64 - 1, w.shift);
    DivBounds(TWO64 - 1, w.jiffies);
    MulMono(rlps, MaxRate(w), w.jiffies);
  }

  lemma ScaleExact(rlps: nat, w: RlWindow, hz: nat)
    requires w.Valid() && rlps <= MaxRate(w) && 0 < rlps && hz > 0
    ensures Scale(rlps, w, hz) == Max(1, rlps * w.jiffies / hz)
  {
    ScaleKeepsAllBits(rlps, w);
  }

  lemma ScaledFits(rlps: nat, w: RlWindow, hz: nat)
    requires w.Valid() && rlps <= MaxRate(w) && w.jiffies <= hz && w.jiffies < TWO64
    ensures Scale(rlps, w, hz) * w.jiffies < TWO64
  {
    if rlps > 0 {
      var W := w.jiffies;
      ScaleExact(rlps, w, hz);
      ScaleKeepsAllBits(rlps, w);
      MulMono(W, hz, rlps);
      DivMono(rlps * W, rlps * hz, hz);
      DivModUnique(rlps * hz, hz, rlps, 0);
      MulMono(Scale(rlps, w, hz), Max(1, rlps), W);
    }
  }

  lemma ScaledMaxOverflows(w: RlWindow, hz: nat)
    requires w.Valid() && 0 < hz < w.jiffies <= MAX_HZ
    ensures 0 < MaxRate(w) && Scale(MaxRate(w), w, hz) * w.jiffies >= TWO64
  {
    var W, m := w.jiffies, MaxRate(w);
    ShrIsDiv(TWO64 - 1, w.shift);
    DivBounds(TWO64 - 1, W);
    DivMono(W, TWO64 - 1, W);
    DivModUnique(W, W, 1, 0);
    ScaleExact(m, w, hz);
    WideWindowOverflows(m * W, hz, W);
    MulMono(m * W / hz, Scale(m, w, hz), W);
  }

  lemma WideWindowOverflows(x: nat, hz: nat, W: nat)
    requires 0 < hz < W <= MAX_HZ && TWO64 - W <= x
    ensures (x / hz) * W >= TWO64
  {
    var s := x / hz;
    DivBounds(x, hz);
    DivMono(0, x, hz);
    LargeQuotient(s, hz, W);
    MulMono(hz + 1, W, s);
    assert s * (hz + 1) == s * hz + s;
  }

  lemma LargeQuotient(s: nat, hz: nat, W: nat)
    requires 0 < hz < W <= MAX_HZ && s * hz >= TWO64 - W - hz + 1
    ensures s >= W + hz
  {
    assert s < W + hz ==> s * hz <= (W + hz) * hz by {
      if s < W + hz { MulMono(s, W + hz, hz); }
    }
    MulMono(W + hz, 2 * MAX_HZ, hz);
  }

  /** Bounding the unscaled rate guards the interpolation against overflow for every accepted
      rate exactly when the rounded window is no longer than a second. */
  lemma RateCheckSufficesIff(hz: nat)
    requires 0 < hz <= MAX_HZ
    ensures
      var w := WindowFor(hz);
      (forall rlps: nat :: rlps <= MaxRate(w) ==> Scale(rlps, w, hz) * w.jiffies < TWO64) <==> w.jiffies <= hz
  {
    var w := WindowFor(hz);
    WindowForValid(hz);
    if w.jiffies <= hz {
      forall rlps: nat | rlps <= MaxRate(w) ensures Scale(rlps, w, hz) * w.jiffies < TWO64 {
        ScaledFits(rlps, w, hz);
      }
    } else {
      ScaledMaxOverflows(w, hz);
    }
  }

  /** The limits the datapath gets for configured rates. */
  function LimitsFor(pps: nat, bps: nat, hz: nat): Rate
    requires hz > 0
  {
    Rate(Scale(pps, WindowFor(hz), hz), Scale(bps, WindowFor(hz), hz))
  }

  /** No run under configured rates overflows when the window is no longer than a second. */
  lemma ConfiguredNeverOverflows(hz: nat, pps: nat, bps: nat, run: seq<Packet>, p: Packet)
    requires 0 < hz <= MAX_HZ && WindowFor(hz).jiffies <= hz
    requires pps <= MaxRate(WindowFor(hz)) && bps <= MaxRate(WindowFor(hz))
    requires Extends(run, p) && Uses(run, LimitsFor(pps, bps, hz), 0)
    ensures WindowFor(hz).jiffies > 0 && !Overflows(run, p, WindowFor(hz).jiffies)
  {
    if hz == 1 {
      OneTickLimits(pps, bps);
      OneTickNeverOverflows(run, p);
    } else {
      LimitsFit(hz, pps, bps);
      NeverOverflows(run, p, LimitsFor(pps, bps, hz), WindowFor(hz).jiffies, 0);
    }
  }

  /** When the window is longer than a second, the largest accepted rate has a run of packets of `lo`
      octets or more that overflows. */
  lemma LargestRateOverflows(hz: nat, lo: nat)
    requires 0 < hz < WindowFor(hz).jiffies && hz <= MAX_HZ && 2 * lo <= UINT32_MAX
    ensures
      var m := MaxRate(WindowFor(hz));
      exists run, p :: Extends(run, p) && Uses(run + [p], LimitsFor(m, m, hz), lo) && Overflows(run, p, WindowFor(hz).jiffies)
  {
    var w, m := WindowFor(hz), MaxRate(WindowFor(hz));
    WindowForValid(hz);
    ScaledMaxOverflows(w, hz);
    ScaleExact(m, w, hz);
    ScaleKeepsAllBits(m, w);
    DivMono(m * w.jiffies, TWO64 - 1, hz);
    DivBounds(TWO64 - 1, hz);
    var R, W := LimitsFor(m, m, hz), w.jiffies;
    LargeRate(R.bytes, W);
    MulMono(1, UINT32_MAX, R.packets);
    assert MaxBytes(R, lo) == R.bytes;
    OverflowIff(R, W, lo);
  }

  lemma LargeRate(s: nat, W: nat)
    requires W <= MAX_HZ && s * W >= TWO64
    ensures s > UINT32_MAX
  {
    if s <= UINT32_MAX {
      MulMono(s, UINT32_MAX, W);
      MulMono(W, MAX_HZ, UINT32_MAX);
    }
  }

  /** Some run overflows under configured rates and some least packet size `lo`. */
  ghost predicate CanOverflow(hz: nat, lo: nat)
    requires 0 < hz && WindowFor(hz).jiffies > 0
  {
    exists pps: nat, bps: nat, run, p ::
      && pps <= MaxRate(WindowFor(hz)) && bps <= MaxRate(WindowFor(hz)) && Extends(run, p)
      && Uses(run + [p], LimitsFor(pps, bps, hz), lo) && Overflows(run, p, WindowFor(hz).jiffies)
  }

  /** End to end, for every tick frequency and least packet size: the configuration check keeps every
      run of the datapath from overflowing exactly when the rounded window is no longer than a second. */
  lemma CheckSufficesIff(hz: nat, lo: nat)
    requires 0 < hz <= MAX_HZ && 2 * lo <= UINT32_MAX
    ensures WindowFor(hz).jiffies > 0 && (!CanOverflow(hz, lo) <==> WindowFor(hz).jiffies <= hz)
  {
    var w := WindowFor(hz);
    WindowForValid(hz);
    if w.jiffies <= hz {
      forall pps: nat, bps: nat, run, p |
        && pps <= MaxRate(w) && bps <= MaxRate(w) && Extends(run, p) && Uses(run + [p], LimitsFor(pps, bps, hz), lo)
        ensures !Overflows(run, p, w.jiffies)
      {
        assert forall i :: 0 <= i < |run| ==> run[i] == (run + [p])[i];
        ConfiguredNeverOverflows(hz, pps, bps, run, p);
      }
    } else {
      LargestRateOverflows(hz, lo);
    }
  }

  /** A 1000 Hz kernel is such a case: the window rounds up to 1024 jiffies. */
  lemma OverflowAt1000Hz(lo: nat)
    requires 2 * lo <= UINT32_MAX
    ensures WindowFor(1000) == RlWindow(1024, 10, 1023) && CanOverflow(1000, lo)
  {
    assert Pow2(5) == 32 && Pow2(9) == 512 && Pow2(10) == 1024;
    CeilLog2Least(1000, 0);
    CeilAtMost(1000, 10);
    Pow2Order(9, CeilLog2(1000, 0));
    TrailingZerosOfPow2(10);
    CheckSufficesIff(1000, lo);
  }

  // ----- what the limiter guarantees under every accepted configuration

  /** The limits of accepted rates leave room for a share that wraps around. */
  lemma LimitsHaveRoom(hz: nat, pps: nat, bps: nat)
    requires 2 <= hz <= MAX_HZ && pps <= MaxRate(WindowFor(hz)) && bps <= MaxRate(WindowFor(hz))
    ensures WindowFor(hz).jiffies > 0 && Room(LimitsFor(pps, bps, hz), WindowFor(hz).jiffies, 0)
  {
    var w, R := WindowFor(hz), LimitsFor(pps, bps, hz);
    WindowForValid(hz);
    ScaledHalf(pps, w, hz);
    ScaledHalf(bps, w, hz);
    MaxWithin(R, 0);
    SmallUncarried(MaxPkts(R, 0), w.jiffies);
    SmallUncarried(MaxBytes(R, 0), w.jiffies);
  }

  lemma ScaledHalf(rlps: nat, w: RlWindow, hz: nat)
    requires w.Valid() && rlps <= MaxRate(w) && hz >= 2
    ensures 2 * Scale(rlps, w, hz) < TWO64
  {
    if rlps > 0 {
      ScaleExact(rlps, w, hz);
      ScaleKeepsAllBits(rlps, w);
      var q := rlps * w.jiffies / hz;
      DivBounds(rlps * w.jiffies, hz);
      if q >= 0 { MulMono(2, hz, q); }
    }
  }

  /** Every aligned window keeps to the limit, for every tick frequency and all accepted rates: also where
      the interpolation overflows. */
  lemma ConfiguredWindowsBounded(hz: nat, pps: nat, bps: nat, run: seq<Packet>, w: int)
    requires 0 < hz <= MAX_HZ && pps <= MaxRate(WindowFor(hz)) && bps <= MaxRate(WindowFor(hz))
    requires Monotone(run) && Uses(run, LimitsFor(pps, bps, hz), 0)
    ensures
      var R, W := LimitsFor(pps, bps, hz), WindowFor(hz).jiffies;
      W > 0 && PktsIn(run, w, W) <= R.packets && BytesIn(run, w, W) <= R.bytes
  {
    var R, W := LimitsFor(pps, bps, hz), WindowFor(hz).jiffies;
    if hz == 1 {
      OneTickLimits(pps, bps);
      OneTickPairs(run, R, 0, w);
    } else {
      LimitsHaveRoom(hz, pps, bps);
      RoomBounds(run, R, W, w);
    }
  }

  lemma RoomBounds(run: seq<Packet>, R: Rate, W: nat, w: int)
    requires W > 0 && Monotone(run) && Uses(run, R, 0) && Room(R, W, 0)
    ensures PktsIn(run, w, W) <= R.packets && BytesIn(run, w, W) <= R.bytes
  {
    EveryWindowBounded(run, R, W, 0);
    MaxWithin(R, 0);
    assert PktsIn(run, w, W) <= MaxPkts(R, 0) && BytesIn(run, w, W) <= MaxBytes(R, 0);
  }

  lemma OneTickLimits(pps: nat, bps: nat)
    requires pps <= MaxRate(WindowFor(1)) && bps <= MaxRate(WindowFor(1))
    ensures WindowFor(1).jiffies == 1
    ensures var R := LimitsFor(pps, bps, 1); R.packets < TWO64 && R.bytes < TWO64
  {
    var w := WindowFor(1);
    WindowForValid(1);
    if pps > 0 {
      ScaleExact(pps, w, 1);
      ScaleKeepsAllBits(pps, w);
    }
    if bps > 0 {
      ScaleExact(bps, w, 1);
      ScaleKeepsAllBits(bps, w);
    }
  }

  /** At the last packet of a run the pair of its window and the one before exceeds the limit by more than
      what has slid out. */
  predicate PairBroken(run: seq<Packet>, R: Rate, W: nat)
    requires W > 0
  {
    run != [] && !PairBounded(run, run[|run| - 1].ts / W, run[|run| - 1].ts % W, R, W)
  }

  /** When the window is longer than a second, the largest accepted rate has a run of packets of `lo`
      octets or more that breaks the pair bound with an admitted packet. */
  lemma LargestRateBreaks(hz: nat, lo: nat) returns (run: seq<Packet>)
    requires 0 < hz < WindowFor(hz).jiffies && hz <= MAX_HZ && 1 <= lo && 2 * lo <= UINT32_MAX
    ensures
      var m, W := MaxRate(WindowFor(hz)), WindowFor(hz).jiffies;
      var R := LimitsFor(m, m, hz);
      && run == Breaking(R, W, lo) && Monotone(run) && Uses(run, R, lo) && Admitted(run, |run| - 1, W)
      && !PairBounded(run, 1, 0, R, W) && PairBroken(run, R, W)
  {
    var w, m := WindowFor(hz), MaxRate(WindowFor(hz));
    WindowForValid(hz);
    ScaledMaxOverflows(w, hz);
    ScaleExact(m, w, hz);
    ScaleKeepsAllBits(m, w);
    DivMono(m * w.jiffies, TWO64 - 1, hz);
    DivBounds(TWO64 - 1, hz);
    var R, W := LimitsFor(m, m, hz), w.jiffies;
    LargeRate(R.bytes, W);
    MulMono(W, MAX_HZ, lo);
    MulMono(1, UINT32_MAX, R.packets);
    FewPackets(R, lo);
    PairBreaks(R, W, lo);
    run := Breaking(R, W, lo);
    DivModUnique(W, W, 1, 0);
  }

  lemma FewPackets(R: Rate, lo: nat)
    requires 2 * lo <= UINT32_MAX < R.bytes && R.bytes <= R.packets
    ensures |Carry(R.bytes, R, lo)| < R.packets
  {
    CarryFits(R.bytes, R.bytes / 2 + 1, R, lo);
  }

  ghost predicate CanBreakPair(hz: nat, lo: nat)
    requires 0 < hz && WindowFor(hz).jiffies > 0
  {
    exists pps: nat, bps: nat, run ::
      && pps <= MaxRate(WindowFor(hz)) && bps <= MaxRate(WindowFor(hz)) && Monotone(run)
      && Uses(run, LimitsFor(pps, bps, hz), lo) && PairBroken(run, LimitsFor(pps, bps, hz), WindowFor(hz).jiffies)
  }

  /** No run under accepted rates breaks the pair bound when the window is no longer than a second. */
  lemma ConfiguredPairBounded(hz: nat, pps: nat, bps: nat, run: seq<Packet>)
    requires 0 < hz <= MAX_HZ && WindowFor(hz).jiffies <= hz
    requires pps <= MaxRate(WindowFor(hz)) && bps <= MaxRate(WindowFor(hz))
    requires Monotone(run) && Uses(run, LimitsFor(pps, bps, hz), 0)
    ensures WindowFor(hz).jiffies > 0 && !PairBroken(run, LimitsFor(pps, bps, hz), WindowFor(hz).jiffies)
  {
    if hz == 1 {
      OneTickLimits(pps, bps);
      OneTickPairBounded(run, LimitsFor(pps, bps, hz));
    } else {
      LimitsFit(hz, pps, bps);
      if run != [] { TwoWindowsBounded(run, LimitsFor(pps, bps, hz), WindowFor(hz).jiffies, 0); }
    }
  }

  lemma LimitsFit(hz: nat, pps: nat, bps: nat)
    requires 2 <= hz <= MAX_HZ && WindowFor(hz).jiffies <= hz
    requires pps <= MaxRate(WindowFor(hz)) && bps <= MaxRate(WindowFor(hz))
    ensures WindowFor(hz).jiffies >= 2 && Fits(LimitsFor(pps, bps, hz), WindowFor(hz).jiffies, 0)
  {
    var w, R := WindowFor(hz), LimitsFor(pps, bps, hz);
    WindowForValid(hz);
    ScaledFits(pps, w, hz);
    ScaledFits(bps, w, hz);
    MulMono(MaxBytes(R, 0), R.bytes, w.jiffies);
  }

  lemma OneTickPairBounded(run: seq<Packet>, R: Rate)
    requires Monotone(run) && Uses(run, R, 0) && R.packets < TWO64 && R.bytes < TWO64
    ensures !PairBroken(run, R, 1)
  {
    if run != [] {
      var ts := run[|run| - 1].ts;
      DivModUnique(ts, 1, ts, 0);
      OneTickPairs(run, R, 0, ts);
    }
  }

  /** For every tick frequency and least packet size, all runs under accepted rates keep the pair bound
      exactly when the rounded window is no longer than a second. */
  lemma PairBoundIff(hz: nat, lo: nat)
    requires 0 < hz <= MAX_HZ && 2 * lo <= UINT32_MAX
    ensures WindowFor(hz).jiffies > 0 && (!CanBreakPair(hz, lo) <==> WindowFor(hz).jiffies <= hz)
  {
    var w := WindowFor(hz);
    WindowForValid(hz);
    if w.jiffies <= hz {
      forall pps: nat, bps: nat, run |
        && pps <= MaxRate(w) && bps <= MaxRate(w) && Monotone(run) && Uses(run, LimitsFor(pps, bps, hz), lo)
        ensures !PairBroken(run, LimitsFor(pps, bps, hz), w.jiffies)
      {
        assert Uses(run, LimitsFor(pps, bps, hz), 0);
        ConfiguredPairBounded(hz, pps, bps, run);
      }
    } else {
      var run := LargestRateBreaks(hz, Max(1, lo));
    }
  }

  /** The 1000 Hz case: fill window 0 to the limit of the highest accepted rate, then send one octet at
      jiffy 1024. */
  lemma PairBreaksAt1000Hz()
    ensures
      var m := MaxRate(WindowFor(1000));
      var R := LimitsFor(m, m, 1000);
      var run := Carry(R.bytes, R, 1) + [Packet(1024, 1, R)];
      && Monotone(run) && Uses(run, R, 1) && Admitted(run, |run| - 1, 1024)
      && !PairBounded(run, 1, 0, R, 1024)
  {
    OverflowAt1000Hz(1);
    var run := LargestRateBreaks(1000, 1);
  }
}
