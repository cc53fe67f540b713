/** How long the trust in a peer lasts, over every trace: what opens it for good, what it inherits from an
    earlier connection, and which FINs bound it. */
module TcpTrust {
  import opened Basics
  import opened TcpAuth

  /** The event leaves the peer trusted for good: the SYN-cookie path admits it, or an outgoing segment
      finds no entry, one without a FIN, or one whose FIN has timed out. */
  predicate Opens(hz: nat, tr: seq<Event>, i: nat, a: SockAddr)
    requires i < |tr| && Never(hz) >= 0
  {
    Seeds(hz, tr, i, a) &&
    (tr[i].Ingress? ||
     var conns := Run(hz, tr[..i]).conns;
     a !in conns || (!tr[i].flags.fin && (conns[a] == Never(hz) || Outdated(hz, conns[a], tr[i].now))))
  }

  /** After a seeding event that carries no FIN the peer has an entry, and the entry is without a FIN
      exactly when the event opens. */
  lemma OpensIff(hz: nat, tr: seq<Event>, i: nat, a: SockAddr)
    requires Never(hz) >= 0 && i < |tr| && Seeds(hz, tr, i, a) && (tr[i].Egress? ==> !tr[i].flags.fin)
    ensures var conns := Run(hz, tr[..i + 1]).conns; a in conns && (conns[a] == Never(hz) <==> Opens(hz, tr, i, a))
  {
    assert tr[..i + 1] == tr[..i] + [tr[i]];
    RunSnoc(hz, tr[..i], tr[i]);
    CookieShown(hz, tr[..i], tr[i]);
  }

  /** A peer whose trust was opened and who has sent or received no FIN or RST since stays trusted. */
  lemma {:induction false} OpenPeerKept(hz: nat, tr: seq<Event>, i: nat, a: SockAddr)
    requires Never(hz) >= 0 && Timely(hz, tr) && i < |tr| && Opens(hz, tr, i, a) && Unbroken(tr, i, a)
    requires forall j :: i < j < |tr| ==> !Closes(tr[j], a)
    ensures a in Run(hz, tr).conns && Run(hz, tr).conns[a] == Never(hz)
    decreases |tr|
  {
    var n := |tr| - 1;
    var pre, e := tr[..n], tr[n];
    var s := Run(hz, pre);
    CookieShown(hz, pre, e);
    if !e.Evict? { OutdatedExact(hz, Never(hz), e.now); }
    if i < n {
      PrefixSame(pre, e, i);
      assert pre + [e] == tr;
      OpenPeerKept(hz, pre, i, a);
      if e.peer != a { StepElsewhere(hz, s, e, a); }
    }
  }

  /** Liveness: such a peer's segments are never dropped by authentication, however much later. */
  lemma OpenPeerAdmitted(hz: nat, tr: seq<Event>, i: nat, e: Event)
    requires Never(hz) >= 0 && Timely(hz, tr) && i < |tr| && e.Ingress?
    requires Opens(hz, tr, i, e.peer) && Unbroken(tr, i, e.peer)
    requires forall j :: i < j < |tr| ==> !Closes(tr[j], e.peer)
    requires e.now < TWO64 && !BareSyn(e.flags) && e.env.rstAllowed && e.cfg.auth
    ensures VerdictOf(hz, tr, e) == Continue
  {
    OpenPeerKept(hz, tr, i, e.peer);
    OutdatedExact(hz, Never(hz), e.now);
  }

  // ----- trust that is inherited

  /** Event `k` at most ends the peer's trust. */
  predicate Lapses(hz: nat, tr: seq<Event>, k: nat, a: SockAddr)
    requires k < |tr| && Never(hz) >= 0
  {
    var x := EffectOn(hz, Run(hz, tr[..k]), tr[k], a);
    x.Keep? || x.Forget?
  }

  lemma {:induction false} EntryKept(hz: nat, tr: seq<Event>, i: nat, a: SockAddr)
    requires Never(hz) >= 0 && i <= |tr| && forall k :: i <= k < |tr| ==> Lapses(hz, tr, k, a)
    ensures var was := Run(hz, tr[..i]).conns;
      a in Run(hz, tr).conns ==> a in was && Run(hz, tr).conns[a] == was[a]
    decreases |tr|
  {
    if i == |tr| {
      assert tr[..i] == tr;
    } else {
      var n := |tr| - 1;
      var pre, e := tr[..n], tr[n];
      forall k | i <= k < n ensures Lapses(hz, pre, k, a) {
        assert Lapses(hz, tr, k, a) && pre[..k] == tr[..k];
      }
      assert Lapses(hz, tr, n, a) && pre[..i] == tr[..i];
      EntryKept(hz, pre, i, a);
      if e.peer != a { StepElsewhere(hz, Run(hz, pre), e, a); }
    }
  }

  /** A new connection that does not open its peer's trust inherits the FIN time of the old one: past
      the grace period of that FIN every segment of it but a bare SYN is dropped. */
  lemma InheritedExpires(hz: nat, tr: seq<Event>, i: nat, e: Event)
    requires Never(hz) >= 0 && Timely(hz, tr) && i < |tr| && e.Ingress?
    requires Seeds(hz, tr, i, e.peer) && tr[i].Egress? && !tr[i].flags.fin && !Opens(hz, tr, i, e.peer)
    requires forall k :: i < k < |tr| ==> Lapses(hz, tr, k, e.peer)
    requires e.cfg.auth && !BareSyn(e.flags) && !ShowsCookie(hz, tr, e)
    requires Run(hz, tr[..i]).conns[e.peer] + 60 * hz < e.now < TWO64
    ensures VerdictOf(hz, tr, e) == Drop
  {
    CookieShown(hz, tr, e);
    assert Lapses(hz, tr, i, e.peer);
    EntryKept(hz, tr, i, e.peer);
    EntryBound(hz, tr[..i], e.peer);
    OutdatedExact(hz, Run(hz, tr[..i]).conns[e.peer], e.now);
  }

  lemma EntryBound(hz: nat, tr: seq<Event>, a: SockAddr)
    requires Never(hz) >= 0 && Timely(hz, tr) && a in Run(hz, tr).conns
    ensures Run(hz, tr).conns[a] <= Never(hz)
  {
    var i := EntryExplained(hz, tr, a);
  }

  /** When a connection is opened by outgoing traffic and nothing renews, closes or ends its peer's trust
      afterwards, that trust outlasts the old connection's grace period exactly when the opening segment
      met no entry, an entry without a FIN, or one whose FIN had timed out. */
  lemma TrustLastsIff(hz: nat, tr: seq<Event>, i: nat, e: Event)
    requires Never(hz) >= 0 && Timely(hz, tr) && i < |tr| && e.Ingress?
    requires Seeds(hz, tr, i, e.peer) && tr[i].Egress? && !tr[i].flags.fin
    requires Unbroken(tr, i, e.peer) && forall k :: i < k < |tr| ==> !Closes(tr[k], e.peer) && Lapses(hz, tr, k, e.peer)
    requires e.cfg.auth && !BareSyn(e.flags) && e.env.rstAllowed && !ShowsCookie(hz, tr, e)
    requires e.now < TWO64 && (!Opens(hz, tr, i, e.peer) ==> Run(hz, tr[..i]).conns[e.peer] + 60 * hz < e.now)
    ensures VerdictOf(hz, tr, e) == Continue <==> Opens(hz, tr, i, e.peer)
  {
    if Opens(hz, tr, i, e.peer) {
      OpenPeerAdmitted(hz, tr, i, e);
    } else {
      InheritedExpires(hz, tr, i, e);
    }
  }

  predicate Ordered(tr: seq<Event>) {
    forall j, k :: 0 <= j < k < |tr| && !tr[j].Evict? && !tr[k].Evict? ==> tr[j].now <= tr[k].now
  }

  /** The grace period of a FIN at `v` ended during the trace. */
  ghost predicate Over(hz: nat, tr: seq<Event>, v: nat) {
    exists k :: 0 <= k < |tr| && !tr[k].Evict? && tr[k].now > v + Timeout(hz)
  }

  /** Event `k` neither ends the peer's trust nor closes or re-arms an entry with FIN time `v`. */
  predicate Spares(hz: nat, tr: seq<Event>, k: nat, a: SockAddr, v: nat)
    requires k < |tr| && Never(hz) >= 0
  {
    !Removes(tr[k], a) && !Closes(tr[k], a) && !Rearms(hz, tr, k, a, v)
  }

  lemma PrefixTimes(hz: nat, tr: seq<Event>, n: nat)
    requires n <= |tr| && Timely(hz, tr) && Ordered(tr)
    ensures Timely(hz, tr[..n]) && Ordered(tr[..n])
  {
  }

  lemma PrefixAt(hz: nat, tr: seq<Event>, n: nat, k: nat, a: SockAddr, v: nat)
    requires Never(hz) >= 0 && k < n <= |tr|
    ensures Lapses(hz, tr[..n], k, a) <==> Lapses(hz, tr, k, a)
    ensures Spares(hz, tr[..n], k, a, v) <==> Spares(hz, tr, k, a, v)
  {
    assert tr[..n][..k] == tr[..k];
  }

  /** On a clock that does not run backwards, an entry lapses as long as no event closes, ends or re-arms
      it: traffic within the grace period renews nothing. */
  lemma {:induction false} LapsesUnlessRearmed(hz: nat, tr: seq<Event>, i: nat, a: SockAddr, v: nat)
    requires Never(hz) >= 0 && Timely(hz, tr) && Ordered(tr)
    requires i <= |tr| && a in Run(hz, tr[..i]).conns && Run(hz, tr[..i]).conns[a] == v
    requires forall k :: i <= k < |tr| ==> Spares(hz, tr, k, a, v)
    ensures forall k :: i <= k < |tr| ==> Lapses(hz, tr, k, a)
    ensures a !in Run(hz, tr).conns ==> Over(hz, tr, v)
    decreases |tr|
  {
    if i == |tr| {
      assert tr[..i] == tr;
    } else {
      var n := |tr| - 1;
      var pre, e := tr[..n], tr[n];
      assert pre[..i] == tr[..i] && tr == pre + [e];
      PrefixTimes(hz, tr, n);
      forall k | i <= k < n
        ensures Spares(hz, pre, k, a, v) && (Lapses(hz, pre, k, a) <==> Lapses(hz, tr, k, a))
      {
        PrefixAt(hz, tr, n, k, a, v);
      }
      LapsesUnlessRearmed(hz, pre, i, a, v);
      EntryKept(hz, pre, i, a);
      EntryBound(hz, tr[..i], a);
      assert Spares(hz, tr, n, a, v);
      LapsesNext(hz, pre, e, a, v);
    }
  }

  lemma LapsesNext(hz: nat, pre: seq<Event>, e: Event, a: SockAddr, v: nat)
    requires Never(hz) >= 0 && v <= Never(hz) && Timely(hz, pre + [e]) && Ordered(pre + [e])
    requires if a in Run(hz, pre).conns then Run(hz, pre).conns[a] == v else Over(hz, pre, v)
    requires Spares(hz, pre + [e], |pre|, a, v)
    ensures Lapses(hz, pre + [e], |pre|, a)
    ensures a !in Run(hz, pre + [e]).conns ==> Over(hz, pre + [e], v)
  {
    var tr := pre + [e];
    assert tr[|pre|] == e && tr[..|pre|] == pre;
    RunSnoc(hz, pre, e);
    CookieShown(hz, pre, e);
    if Over(hz, pre, v) {
      var k :| 0 <= k < |pre| && !pre[k].Evict? && pre[k].now > v + Timeout(hz);
      assert tr[k] == pre[k];
    }
    if e.peer != a {
      StepElsewhere(hz, Run(hz, pre), e, a);
    } else if !e.Evict? {
      OutdatedExact(hz, v, e.now);
    }
  }

  // ----- which FINs are recorded

  /** A segment that closes its connection: an outgoing RST counts as a RST whatever else it carries. */
  predicate Fins(e: Event) {
    (e.Egress? && e.flags.fin && !e.flags.rst) || (e.Ingress? && e.flags.fin)
  }

  /** The peer is trusted for exactly one minute after `t`. */
  ghost predicate OneMinute(hz: nat, s: State, a: SockAddr, t: nat) {
    forall now: nat :: now < TWO64 ==> (Trusted(hz, s, a, now) <==> now <= t + 60 * hz)
  }

  /** The peer is known, and the FIN is outgoing, or comes in from a trusted peer while authentication
      is on, or repeats the time already on record. */
  predicate Recorded(hz: nat, s: State, e: Event)
    requires !e.Evict?
  {
    e.peer in s.conns &&
    (e.Egress? || (e.cfg.auth && !Outdated(hz, s.conns[e.peer], e.now)) || s.conns[e.peer] == e.now)
  }

  /** A FIN keeps its connection trusted for one more minute and no longer exactly when it is recorded. */
  lemma OneMinuteIff(hz: nat, tr: seq<Event>, e: Event)
    requires Never(hz) >= 0 && Timely(hz, tr) && Fins(e) && e.now < Never(hz)
    ensures OneMinute(hz, Run(hz, tr + [e]), e.peer, e.now) <==> Recorded(hz, Run(hz, tr), e)
  {
    var s, s1, a := Run(hz, tr), Run(hz, tr + [e]), e.peer;
    RunSnoc(hz, tr, e);
    if a in s.conns { EntryBound(hz, tr, a); }
    if Recorded(hz, s, e) {
      OutdatedExact(hz, e.now, e.now);
      assert s1.conns[a] == e.now;
      OneMinuteAt(hz, s1, a, e.now);
    } else {
      assert a in s1.conns ==> s1.conns[a] <= Never(hz) && s1.conns[a] != e.now;
      OtherMinute(hz, s1, a, e.now);
    }
  }

  lemma OneMinuteAt(hz: nat, s: State, a: SockAddr, t: nat)
    requires a in s.conns && s.conns[a] == t <= Never(hz)
    ensures OneMinute(hz, s, a, t)
  {
    forall now: nat | now < TWO64 ensures Trusted(hz, s, a, now) <==> now <= t + 60 * hz {
      OutdatedExact(hz, t, now);
    }
  }

  lemma OtherMinute(hz: nat, s: State, a: SockAddr, t: nat)
    requires t < Never(hz) && (a in s.conns ==> s.conns[a] <= Never(hz) && s.conns[a] != t)
    ensures !OneMinute(hz, s, a, t)
  {
    if a !in s.conns {
      assert !Trusted(hz, s, a, t);
    } else {
      var now := if s.conns[a] > t then t + Timeout(hz) + 1 else t + Timeout(hz);
      OutdatedExact(hz, s.conns[a], now);
      assert Trusted(hz, s, a, now) <==> now > t + Timeout(hz);
    }
  }

  /** The outgoing FIN of a peer that is not known, while authentication is off: the peer is trusted
      for good. */
  lemma UnknownPeerFin(hz: nat, tr: seq<Event>, fin: Event, e: Event)
    requires Never(hz) >= 0 && fin.Egress? && fin.flags.fin && !fin.flags.rst && !fin.cfg.auth
    requires fin.peer !in Run(hz, tr).conns
    requires e.Ingress? && e.peer == fin.peer && e.cfg.auth && e.now < TWO64 && !BareSyn(e.flags) && e.env.rstAllowed
    ensures VerdictOf(hz, tr + [fin], e) == Continue
  {
    RunSnoc(hz, tr, fin);
    OutdatedExact(hz, Never(hz), e.now);
  }

  /** The FIN of a trusted peer while authentication is off: the peer stays trusted for good. */
  lemma FinWhileOff(hz: nat, tr: seq<Event>, fin: Event, e: Event)
    requires Never(hz) >= 0 && fin.Ingress? && fin.flags.fin && !fin.cfg.auth
    requires fin.peer in Run(hz, tr).conns && Run(hz, tr).conns[fin.peer] == Never(hz)
    requires e.Ingress? && e.peer == fin.peer && e.cfg.auth && e.now < TWO64 && !BareSyn(e.flags) && e.env.rstAllowed
    ensures VerdictOf(hz, tr + [fin], e) == Continue
  {
    RunSnoc(hz, tr, fin);
    OutdatedExact(hz, Never(hz), e.now);
  }
}
