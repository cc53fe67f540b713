/** The shared array of rate-limit buckets, and the history of everything that happened to it. */
module RateBuckets {
  import opened RateLimiter

  /** `Charged`: a packet judged against bucket `b`. `Reset`: the bucket zeroed by the manager.
      `Published`: a configuration upload, after which exactly the buckets of `live` are referred to. */
  datatype Event = Charged(b: nat, p: Packet) | Reset(b: nat) | Published(live: set<nat>)

  type History = seq<Event>

  /** The buckets the published rules refer to. */
  function LiveAt(h: History): set<nat> {
    if h == [] then {}
    else match h[|h| - 1]
      case Published(live) => live
      case _ => LiveAt(h[..|h| - 1])
  }

  /** The packets charged to bucket `b` since it was last zeroed. */
  function Since(h: History, b: nat): seq<Packet> {
    if h == [] then []
    else
      var rest := Since(h[..|h| - 1], b);
      match h[|h| - 1]
      case Charged(x, p) => if x == b then rest + [p] else rest
      case Reset(x) => if x == b then [] else rest
      case Published(_) => rest
  }

  /** Packets reach published buckets only, no published bucket is zeroed, and a bucket that becomes
      published has seen no packet since it was last zeroed. */
  ghost predicate Safe(h: History) {
    h == [] ||
    var rest := h[..|h| - 1];
    Safe(rest) &&
    match h[|h| - 1]
    case Charged(b, _) => b in LiveAt(rest)
    case Reset(b) => b !in LiveAt(rest)
    case Published(live) => forall b :: b in live && b !in LiveAt(rest) ==> Since(rest, b) == []
  }

  /** The packets a stretch of history charges to bucket `b`. */
  function Charges(h: History, b: nat): seq<Packet> {
    if h == [] then []
    else
      var rest := Charges(h[..|h| - 1], b);
      match h[|h| - 1]
      case Charged(x, p) => if x == b then rest + [p] else rest
      case _ => rest
  }

  /** Throughout any stretch in which a bucket stays published its counters only accumulate. */
  lemma {:induction false} LiveBucketKeepsCounters(h: History, i: nat, j: nat, b: nat)
    requires Safe(h) && i <= j <= |h|
    requires forall k :: i <= k <= j ==> b in LiveAt(h[..k])
    ensures Since(h[..j], b) == Since(h[..i], b) + Charges(h[i..j], b)
    decreases j - i
  {
    if i < j {
      LiveBucketKeepsCounters(h, i, j - 1, b);
      SafePrefix(h, j);
      assert h[..j][..j - 1] == h[..j - 1];
      assert h[i..j][..j - 1 - i] == h[i..j - 1];
    }
  }

  /** A bucket that an upload makes newly live starts from nothing, so while it stays live its
      counters are those of the packets charged to it since that upload. */
  lemma FreshBucketStartsZero(h: History, i: nat, j: nat, b: nat)
    requires Safe(h) && i < j <= |h| && h[i].Published?
    requires b !in LiveAt(h[..i]) && forall k :: i < k <= j ==> b in LiveAt(h[..k])
    ensures Since(h[..j], b) == Charges(h[i + 1..j], b)
  {
    SafePrefix(h, i + 1);
    assert h[..i + 1][..i] == h[..i];
    LiveBucketKeepsCounters(h, i + 1, j, b);
  }

  /** From `h` to `h1` without an upload. */
  ghost predicate Quiet(h: History, h1: History) {
    h <= h1 && forall i :: |h| <= i < |h1| ==> !h1[i].Published?
  }

  /** From `h` to `h1` with a single upload, event `at`. */
  ghost predicate Upload(h: History, h1: History, at: nat) {
    |h| <= at < |h1| && h1[at].Published? && Quiet(h, h1[..at]) && Quiet(h1[..at + 1], h1)
  }

  lemma QuietOn(a: History, b: History, c: History)
    requires Quiet(a, b) && Quiet(b, c)
    ensures Quiet(a, c)
  {
    forall i | |a| <= i < |c| ensures !c[i].Published? {
      if i < |b| { assert c[i] == b[i]; }
    }
  }

  lemma {:induction false} QuietLive(h: History, h1: History, k: nat)
    requires Quiet(h, h1) && |h| <= k <= |h1|
    ensures LiveAt(h1[..k]) == LiveAt(h)
    decreases k
  {
    if k == |h| {
      assert h1[..k] == h;
    } else {
      QuietLive(h, h1, k - 1);
      assert h1[..k][..k - 1] == h1[..k - 1];
    }
  }

  /** Without an upload every published bucket accumulates. */
  lemma QuietKeeps(h: History, h1: History, b: nat)
    requires Safe(h1) && Quiet(h, h1) && b in LiveAt(h)
    ensures Since(h1, b) == Since(h, b) + Charges(h1[|h|..], b)
  {
    forall k | |h| <= k <= |h1| ensures b in LiveAt(h1[..k]) {
      QuietLive(h, h1, k);
    }
    LiveBucketKeepsCounters(h1, |h|, |h1|, b);
    assert h1[..|h1|] == h1 && h1[..|h|] == h && h1[|h|..|h1|] == h1[|h|..];
  }

  lemma UploadLive(h: History, h1: History, at: nat, k: nat)
    requires Upload(h, h1, at) && |h| <= k <= |h1|
    ensures LiveAt(h1[..k]) == if k <= at then LiveAt(h) else h1[at].live
  {
    if k <= at {
      QuietLive(h, h1[..at], k);
      assert h1[..at][..k] == h1[..k];
    } else {
      QuietLive(h1[..at + 1], h1, k);
      assert h1[..at + 1][..at] == h1[..at];
    }
  }

  /** A bucket that an upload keeps accumulates through it. */
  lemma UploadKeeps(h: History, h1: History, at: nat, b: nat)
    requires Safe(h1) && Upload(h, h1, at) && b in LiveAt(h) && b in LiveAt(h1)
    ensures Since(h1, b) == Since(h, b) + Charges(h1[|h|..], b)
  {
    UploadLive(h, h1, at, |h1|);
    assert h1[..|h1|] == h1 && h1[..|h|] == h && h1[|h|..|h1|] == h1[|h|..];
    forall k | |h| <= k <= |h1| ensures b in LiveAt(h1[..k]) {
      UploadLive(h, h1, at, k);
    }
    LiveBucketKeepsCounters(h1, |h|, |h1|, b);
  }

  /** A bucket that an upload makes live counts from that upload on. */
  lemma UploadStartsZero(h: History, h1: History, at: nat, b: nat)
    requires Safe(h1) && Upload(h, h1, at) && b !in LiveAt(h) && b in LiveAt(h1)
    ensures Since(h1, b) == Charges(h1[at + 1..], b)
  {
    UploadLive(h, h1, at, |h1|);
    UploadLive(h, h1, at, at);
    assert h1[..|h1|] == h1 && h1[at + 1..|h1|] == h1[at + 1..];
    forall k | at < k <= |h1| ensures b in LiveAt(h1[..k]) {
      UploadLive(h, h1, at, k);
    }
    FreshBucketStartsZero(h1, at, |h1|, b);
  }

  lemma {:induction false} SafePrefix(h: History, i: nat)
    requires Safe(h) && i <= |h|
    ensures Safe(h[..i])
    decreases |h| - i
  {
    if i < |h| {
      SafePrefix(h, i + 1);
      assert h[..i + 1][..i] == h[..i];
    } else {
      assert h[..i] == h;
    }
  }

  lemma Append(h: History, e: Event)
    ensures (h + [e])[..|h + [e]| - 1] == h
  {
  }

  class BucketArray {
    /** Window length in jiffies. */
    const W: nat
    var slots: seq<seq<Slot>>
    /** The buckets the datapath refers to. */
    var live: set<nat>
    ghost var history: History

    ghost predicate Valid()
      reads this
    {
      && W > 0 && Safe(history) && live == LiveAt(history)
      && (forall b :: 0 <= b < |slots| ==> slots[b] == Slots(Since(history, b), W))
      && (forall b :: b in LiveAt(history) ==> b < |slots|)
    }

    constructor (size: nat, window: nat)
      requires window > 0
      ensures Valid() && W == window && |slots| == size && history == []
    {
      W := window;
      slots := seq(size, _ => ZeroBucket);
      live, history := {}, [];
    }

    method Charge(b: nat, p: Packet)
      requires Valid() && b in LiveAt(history)
      modifies this
      ensures Valid() && |slots| == old(|slots|)
      ensures history == old(history) + [Charged(b, p)]
    {
      Append(history, Charged(b, p));
      ghost var run := Since(history, b);
      assert (run + [p])[..|run|] == run;
      slots := slots[b := RateLimiter.Charge(slots[b], p, W)];
      history := history + [Charged(b, p)];
    }

    /** The release callback. */
    method Zero(b: nat)
      requires Valid() && b < |slots| && b !in LiveAt(history)
      modifies this
      ensures Valid() && |slots| == old(|slots|)
      ensures history == old(history) + [Reset(b)]
    {
      Append(history, Reset(b));
      slots := slots[b := ZeroBucket];
      history := history + [Reset(b)];
    }

    /** The moment a configuration that refers to `buckets` becomes visible to the datapath. */
    method Publish(buckets: set<nat>)
      requires Valid() && (forall b :: b in buckets ==> b < |slots|)
      requires forall b :: b in buckets && b !in LiveAt(history) ==> Since(history, b) == []
      modifies this
      ensures Valid() && slots == old(slots)
      ensures history == old(history) + [Published(buckets)]
    {
      Append(history, Published(buckets));
      live := buckets;
      history := history + [Published(buckets)];
    }

    /** Any number of packets on any of the published buckets. */
    method Traffic()
      requires Valid()
      modifies this
      ensures Valid() && |slots| == old(|slots|)
      ensures old(history) <= history && LiveAt(history) == LiveAt(old(history))
      ensures forall i :: |old(history)| <= i < |history| ==> history[i].Charged?
      ensures forall b :: b !in LiveAt(old(history)) ==> Since(history, b) == Since(old(history), b)
    {
      var n: nat := *;
      if live == {} { return; }
      while n > 0
        invariant Valid() && |slots| == old(|slots|) && live == old(live)
        invariant old(history) <= history
        invariant forall i :: |old(history)| <= i < |history| ==> history[i].Charged?
        invariant forall b :: b !in live ==> Since(history, b) == Since(old(history), b)
      {
        var b :| b in live;
        var p: Packet := *;
        Append(history, Charged(b, p));
        Charge(b, p);
        n := n - 1;
      }
    }
  }
}
