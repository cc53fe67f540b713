/** TCP connection authentication: one table of trusted peers, stepped by ingress and egress segments,
    by time and by eviction. */
module TcpAuth {
  import opened Basics
  import opened MachineArith

  datatype SockAddr = SockAddr(addr: nat, port: nat)

  datatype Flags = Flags(fin: bool, rst: bool, syn: bool, ack: bool)

  /** Rules in force for a segment. `syncookie` is set only in host deployment mode. */
  datatype Cfg = Cfg(auth: bool, syncookie: bool, floodTimer: nat, passiveTimer: nat)

  /** What the kernel answers when the socket of an ACK is looked up and its cookie checked. */
  datatype SockLookup = NoSocket | NotListening | Listening(cookieOk: bool)

  /** What the rate limiter and the kernel answer for a bare SYN. */
  datatype SynOutcome = RateLimited | NoListener | CookieDeclined | CookieError | CookieSent

  /** Everything outside the filter that an ingress segment depends on. */
  datatype Env = Env(cpu: nat, sock: SockLookup, syn: SynOutcome, rstAllowed: bool)

  datatype Verdict = Continue | Drop | Tx

  /** When a CPU last tried to send a SYN cookie, and when it last sent one. */
  datatype Stamps = Stamps(lastTry: nat, lastGen: nat)

  /** Trusted peers with the time of their last FIN, shared by all CPUs, and the SYN-cookie timestamps
      of each CPU that has set them. */
  datatype State = State(conns: map<SockAddr, nat>, stamps: map<nat, Stamps>)

  datatype Event =
    | Ingress(cfg: Cfg, now: nat, peer: SockAddr, flags: Flags, env: Env)
    | Egress(cfg: Cfg, now: nat, peer: SockAddr, flags: Flags)
    | Evict(peer: SockAddr)

  const Start: State := State(map[], map[])

  function Timeout(hz: nat): nat { 60 * hz }

  /** The FIN time of a peer that has not closed: far enough in the future never to expire. */
  function Never(hz: nat): int { TWO64 - 1 - Timeout(hz) }

  function Sub64(a: int, b: int): nat { (a - b) % TWO64 }

  predicate Outdated(hz: nat, fin: nat, now: nat) {
    Wrap(fin + Timeout(hz)) < now
  }

  predicate Trusted(hz: nat, s: State, peer: SockAddr, now: nat) {
    peer in s.conns && !Outdated(hz, s.conns[peer], now)
  }

  function StampsOf(stamps: map<nat, Stamps>, cpu: nat): Stamps {
    if cpu in stamps then stamps[cpu] else Stamps(0, 0)
  }

  predicate FloodMode(t: Stamps, cfg: Cfg, now: nat) {
    cfg.floodTimer >= Sub64(now, t.lastGen)
  }

  predicate PassiveMode(t: Stamps, cfg: Cfg, now: nat) {
    cfg.passiveTimer <= Sub64(now, t.lastTry)
  }

  predicate PureAck(f: Flags) { f.ack && !f.fin && !f.rst && !f.syn }

  predicate BareSyn(f: Flags) { f.syn && !f.ack && !f.fin && !f.rst }

  predicate CookiePasses(sock: SockLookup) {
    sock.NotListening? || (sock.Listening? && sock.cookieOk)
  }

  // ----- one event

  /** An ACK that must show a cookie unless its peer is trusted. */
  predicate AckInFlood(s: State, e: Event)
    requires e.Ingress?
  {
    PureAck(e.flags) && e.cfg.syncookie && FloodMode(StampsOf(s.stamps, e.env.cpu), e.cfg, e.now)
  }

  /** A SYN that is answered with a cookie. */
  predicate SynInFlood(s: State, e: Event)
    requires e.Ingress?
  {
    var t := StampsOf(s.stamps, e.env.cpu);
    BareSyn(e.flags) && e.cfg.syncookie && !e.env.syn.RateLimited?
    && (FloodMode(t, e.cfg, e.now) || PassiveMode(t, e.cfg, e.now))
  }

  /** The segment is let in and its peer trusted by the SYN-cookie path. */
  predicate CookieAdmits(hz: nat, s: State, e: Event) {
    e.Ingress? && AckInFlood(s, e) && !(e.cfg.auth && Trusted(hz, s, e.peer, e.now)) && CookiePasses(e.env.sock)
  }

  /** A segment other than a bare SYN goes on: its peer is trusted, or shows a cookie during a flood, or
      authentication is off; and a RST is within its rate. */
  predicate Passes(hz: nat, s: State, e: Event)
    requires e.Ingress?
  {
    && ((e.cfg.auth && Trusted(hz, s, e.peer, e.now)) || CookieAdmits(hz, s, e) || (!e.cfg.auth && !AckInFlood(s, e)))
    && (e.flags.rst && !e.flags.fin ==> e.env.rstAllowed)
  }

  function VerdictAt(hz: nat, s: State, e: Event): Verdict
    requires e.Ingress?
  {
    if !BareSyn(e.flags) then (if Passes(hz, s, e) then Continue else Drop)
    else if e.env.syn.RateLimited? then Drop
    else if !SynInFlood(s, e) || e.env.syn.CookieDeclined? then Continue
    else if e.env.syn.CookieSent? then Tx
    else Drop
  }

  /** What one event does to the entry of one peer. */
  datatype Effect = Keep | Trust | Close(at: nat) | Rearm | Forget

  function EffectOn(hz: nat, s: State, e: Event, a: SockAddr): Effect {
    if e.peer != a then Keep
    else match e
      case Evict(_) => Forget
      case Egress(cfg, now, _, f) =>
        if f.rst then Forget
        else if a !in s.conns then (if !cfg.auth || f.syn then Trust else Keep)
        else if f.fin then Close(now)
        else if Outdated(hz, s.conns[a], now) then Rearm
        else Keep
      case Ingress(cfg, now, _, f, env) =>
        if CookieAdmits(hz, s, e) then Trust
        else if !cfg.auth || a !in s.conns || BareSyn(f) then Keep
        else if Outdated(hz, s.conns[a], now) then (if AckInFlood(s, e) then Keep else Forget)
        else if f.fin then Close(now)
        else if f.rst then Forget
        else Keep
  }

  function Applied(hz: nat, conns: map<SockAddr, nat>, a: SockAddr, x: Effect): map<SockAddr, nat>
    requires Never(hz) >= 0
  {
    match x
    case Keep => conns
    case Trust => conns[a := Never(hz)]
    case Rearm => conns[a := Never(hz)]
    case Close(at) => conns[a := at]
    case Forget => conns - {a}
  }

  /** A cookie that was wanted, and one that was sent or failed, is remembered by the CPU. */
  function Stamped(s: State, e: Event): map<nat, Stamps> {
    if !e.Ingress? || !(AckInFlood(s, e) || SynInFlood(s, e)) then s.stamps
    else
      var sent := SynInFlood(s, e) && !e.env.syn.CookieDeclined?;
      s.stamps[e.env.cpu := Stamps(e.now, if sent then e.now else StampsOf(s.stamps, e.env.cpu).lastGen)]
  }

  function Step(hz: nat, s: State, e: Event): State
    requires Never(hz) >= 0
  {
    State(Applied(hz, s.conns, e.peer, EffectOn(hz, s, e, e.peer)), Stamped(s, e))
  }

  function Run(hz: nat, tr: seq<Event>): State
    requires Never(hz) >= 0
  {
    if tr == [] then Start else Step(hz, Run(hz, tr[..|tr| - 1]), tr[|tr| - 1])
  }

  function VerdictOf(hz: nat, tr: seq<Event>, e: Event): Verdict
    requires Never(hz) >= 0 && e.Ingress?
  {
    VerdictAt(hz, Run(hz, tr), e)
  }

  // ----- what a trace says about the SYN cookies of one CPU

  /** Event `k` is a bare SYN on `cpu` that was neither over its rate nor let through: a cookie answered
      it, or the attempt failed. */
  predicate Answered(hz: nat, tr: seq<Event>, k: nat, cpu: nat)
    requires k < |tr| && Never(hz) >= 0
  {
    var e := tr[k];
    && e.Ingress? && e.env.cpu == cpu && e.flags == Flags(false, false, true, false)
    && e.env.syn != RateLimited && VerdictOf(hz, tr[..k], e) != Continue
  }

  /** When the CPU last answered a bare SYN; 0 if it never has. */
  function LastCookie(hz: nat, tr: seq<Event>, cpu: nat): nat
    requires Never(hz) >= 0
  {
    if tr == [] then 0
    else if Answered(hz, tr, |tr| - 1, cpu) then tr[|tr| - 1].now
    else LastCookie(hz, tr[..|tr| - 1], cpu)
  }

  /** The last answer of the CPU lies at most the flood timer back, on the 64-bit clock. */
  predicate InFlood(hz: nat, tr: seq<Event>, e: Event)
    requires Never(hz) >= 0 && e.Ingress?
  {
    (e.now - LastCookie(hz, tr, e.env.cpu)) % TWO64 <= e.cfg.floodTimer
  }

  /** The segment makes its CPU try a cookie: an ACK or a SYN during a flood, or a SYN a passive timer
      after the last try. */
  predicate Tries(hz: nat, tr: seq<Event>, e: Event)
    requires Never(hz) >= 0
    decreases |tr|, 1
  {
    e.Ingress? && e.cfg.syncookie &&
    if e.flags == Flags(false, false, true, false) then
      e.env.syn != RateLimited &&
      (InFlood(hz, tr, e) || (e.now - LastTry(hz, tr, e.env.cpu)) % TWO64 >= e.cfg.passiveTimer)
    else e.flags == Flags(false, false, false, true) && InFlood(hz, tr, e)
  }

  /** When the CPU last tried; 0 if it never has. */
  function LastTry(hz: nat, tr: seq<Event>, cpu: nat): nat
    requires Never(hz) >= 0
    decreases |tr|, 0
  {
    if tr == [] then 0
    else
      var e := tr[|tr| - 1];
      if e.Ingress? && e.env.cpu == cpu && Tries(hz, tr[..|tr| - 1], e) then e.now
      else LastTry(hz, tr[..|tr| - 1], cpu)
  }

  /** The timestamps of a CPU are the times of its last try and its last answer. */
  lemma {:induction false} StampsAreTimes(hz: nat, tr: seq<Event>, cpu: nat)
    requires Never(hz) >= 0
    ensures StampsOf(Run(hz, tr).stamps, cpu) == Stamps(LastTry(hz, tr, cpu), LastCookie(hz, tr, cpu))
    decreases |tr|
  {
    if tr != [] {
      var pre, e := tr[..|tr| - 1], tr[|tr| - 1];
      StampsAreTimes(hz, pre, cpu);
    }
  }

  /** The modes the code derives from its timestamps are those the trace shows. */
  lemma ModesFromTrace(hz: nat, tr: seq<Event>, e: Event)
    requires Never(hz) >= 0 && e.Ingress?
    ensures FloodMode(StampsOf(Run(hz, tr).stamps, e.env.cpu), e.cfg, e.now) <==> InFlood(hz, tr, e)
    ensures AckInFlood(Run(hz, tr), e) || SynInFlood(Run(hz, tr), e) <==> Tries(hz, tr, e)
  {
    StampsAreTimes(hz, tr, e.env.cpu);
  }

  /** The segment shows the kernel's consent during a flood: its socket is past listening, or its cookie
      is valid; and it needs it. */
  predicate ShowsCookie(hz: nat, tr: seq<Event>, e: Event)
    requires Never(hz) >= 0
  {
    && e.Ingress? && e.flags == Flags(false, false, false, true) && e.cfg.syncookie && InFlood(hz, tr, e)
    && !(e.cfg.auth && Trusted(hz, Run(hz, tr), e.peer, e.now))
    && (e.env.sock == NotListening || e.env.sock == Listening(true))
  }

  lemma CookieShown(hz: nat, tr: seq<Event>, e: Event)
    requires Never(hz) >= 0
    ensures CookieAdmits(hz, Run(hz, tr), e) <==> ShowsCookie(hz, tr, e)
  {
    if e.Ingress? { ModesFromTrace(hz, tr, e); }
  }

  // ----- exactly what happens to a segment

  /** Verdict and table for a pure ACK in a flood: trusted peers pass, others exactly with the kernel's
      consent, which makes them trusted. */
  predicate AckRule(hz: nat, s: State, e: Event, v: Verdict, conns: map<SockAddr, nat>)
    requires Never(hz) >= 0 && e.Ingress?
  {
    if e.cfg.auth && Trusted(hz, s, e.peer, e.now) then v == Continue && conns == s.conns
    else if e.env.sock == NotListening || e.env.sock == Listening(true) then
      v == Continue && conns == s.conns[e.peer := Never(hz)]
    else v == Drop && conns == s.conns
  }

  /** Verdict for a bare SYN; `tries` says whether a cookie is due. */
  predicate SynRule(e: Event, tries: bool, v: Verdict)
    requires e.Ingress?
  {
    && (v == Drop <==> e.env.syn == RateLimited || (tries && (e.env.syn == NoListener || e.env.syn == CookieError)))
    && (v == Tx <==> tries && e.env.syn == CookieSent)
  }

  /** Verdict for any other segment: with authentication off all pass, with it on those of trusted peers;
      a RST must also keep to its rate. */
  predicate PlainRule(hz: nat, s: State, e: Event, v: Verdict)
    requires e.Ingress?
  {
    && (v == Continue <==> (!e.cfg.auth || Trusted(hz, s, e.peer, e.now)) && (e.flags.rst && !e.flags.fin ==> e.env.rstAllowed))
    && v != Tx
  }

  /** What becomes of segment `e` after trace `tr`: verdict `v` and the table `conns`. */
  predicate Ruled(hz: nat, tr: seq<Event>, e: Event, v: Verdict, conns: map<SockAddr, nat>)
    requires Never(hz) >= 0 && e.Ingress?
  {
    var s := Run(hz, tr);
    if e.flags == Flags(false, false, true, false) then SynRule(e, Tries(hz, tr, e), v) && conns == s.conns
    else if e.flags == Flags(false, false, false, true) && e.cfg.syncookie && InFlood(hz, tr, e) then
      AckRule(hz, s, e, v, conns)
    else PlainRule(hz, s, e, v) && (!e.cfg.auth ==> conns == s.conns)
  }

  /** Over every trace and for every segment. */
  lemma EverySegmentRuled(hz: nat, tr: seq<Event>, e: Event)
    requires Never(hz) >= 0 && e.Ingress?
    ensures Ruled(hz, tr, e, VerdictOf(hz, tr, e), Step(hz, Run(hz, tr), e).conns)
  {
    ModesFromTrace(hz, tr, e);
  }

  // ----- what a trace says about one peer

  /** Events that may start trust: egress SYN, any egress segment while authentication is off, and a
      segment admitted by the SYN-cookie path. */
  predicate Seeds(hz: nat, tr: seq<Event>, i: nat, a: SockAddr)
    requires i < |tr| && Never(hz) >= 0
  {
    var e := tr[i];
    match e
    case Egress(cfg, _, peer, f) => peer == a && !f.rst && (f.syn || !cfg.auth)
    case Ingress(_, _, peer, _, _) => peer == a && ShowsCookie(hz, tr[..i], e)
    case Evict(_) => false
  }

  /** Events that end trust: egress RST, ingress RST under authentication, eviction. */
  predicate Removes(e: Event, a: SockAddr) {
    match e
    case Egress(_, _, peer, f) => peer == a && f.rst
    case Ingress(cfg, _, peer, f, _) => peer == a && cfg.auth && f.rst && !f.fin
    case Evict(peer) => peer == a
  }

  predicate Closes(e: Event, a: SockAddr) {
    match e
    case Egress(_, _, peer, f) => peer == a && f.fin && !f.rst
    case Ingress(cfg, _, peer, f, _) => peer == a && cfg.auth && f.fin
    case Evict(_) => false
  }

  /** Event `k` re-arms a peer whose FIN came at time `f`: egress traffic after the grace period, or
      the SYN-cookie path. */
  predicate Rearms(hz: nat, tr: seq<Event>, k: nat, a: SockAddr, f: nat)
    requires k < |tr| && Never(hz) >= 0
  {
    var e := tr[k];
    match e
    case Egress(_, now, peer, g) => peer == a && !g.rst && !g.fin && now > f + 60 * hz
    case Ingress(_, _, peer, _, _) => peer == a && ShowsCookie(hz, tr[..k], e)
    case Evict(_) => false
  }

  /** No event of the trace comes within the close timeout of the end of the 64-bit clock. */
  predicate Timely(hz: nat, tr: seq<Event>) {
    forall i :: 0 <= i < |tr| && !tr[i].Evict? ==> tr[i].now <= Never(hz)
  }

  predicate Unbroken(tr: seq<Event>, i: int, a: SockAddr) {
    forall j :: i < j < |tr| && 0 <= j ==> !Removes(tr[j], a)
  }

  predicate LastClose(tr: seq<Event>, i: int, j: int, a: SockAddr) {
    && i < j < |tr| && 0 <= j && Closes(tr[j], a)
    && forall k :: j < k < |tr| ==> !Closes(tr[k], a)
  }

  predicate Rearmed(hz: nat, tr: seq<Event>, j: nat, a: SockAddr)
    requires j < |tr| && !tr[j].Evict? && Never(hz) >= 0
  {
    exists k :: j < k < |tr| && Rearms(hz, tr, k, a, tr[j].now)
  }

  /** Trust that started at `i` and has not been ended, with `v` recorded as the peer's FIN time. */
  ghost predicate Explains(hz: nat, tr: seq<Event>, i: nat, a: SockAddr, v: nat)
    requires Never(hz) >= 0
  {
    && i < |tr| && Seeds(hz, tr, i, a) && Unbroken(tr, i, a)
    && (v == Never(hz) || exists j :: LastClose(tr, i, j, a) && v == tr[j].now)
    && (forall j :: LastClose(tr, i, j, a) ==> v == tr[j].now || Rearmed(hz, tr, j, a))
  }

  // ----- every entry has an explanation

  /** Peers do not influence one another. */
  lemma StepElsewhere(hz: nat, s: State, e: Event, a: SockAddr)
    requires Never(hz) >= 0 && e.peer != a
    ensures a in Step(hz, s, e).conns <==> a in s.conns
    ensures a in s.conns ==> Step(hz, s, e).conns[a] == s.conns[a]
  {
  }

  lemma RunSnoc(hz: nat, pre: seq<Event>, e: Event)
    requires Never(hz) >= 0
    ensures Run(hz, pre + [e]) == Step(hz, Run(hz, pre), e)
  {
    assert (pre + [e])[..|pre|] == pre;
  }

  lemma PrefixSame(pre: seq<Event>, e: Event, k: nat)
    requires k <= |pre|
    ensures (pre + [e])[..k] == pre[..k]
  {
  }

  lemma RearmedLater(hz: nat, pre: seq<Event>, e: Event, j: nat, a: SockAddr)
    requires Never(hz) >= 0 && j < |pre| && !pre[j].Evict? && Rearmed(hz, pre, j, a)
    ensures Rearmed(hz, pre + [e], j, a)
  {
    var k :| j < k < |pre| && Rearms(hz, pre, k, a, pre[j].now);
    PrefixSame(pre, e, k);
    assert Rearms(hz, pre + [e], k, a, (pre + [e])[j].now);
  }

  /** The latest FIN of a trace stays the latest while no other comes. */
  lemma LastCloseSame(pre: seq<Event>, e: Event, i: int, j: int, a: SockAddr)
    requires !Closes(e, a)
    ensures LastClose(pre + [e], i, j, a) <==> LastClose(pre, i, j, a)
  {
    var tr := pre + [e];
    assert forall k :: 0 <= k < |pre| ==> tr[k] == pre[k];
    assert tr[|pre|] == e;
    if LastClose(pre, i, j, a) {
      assert forall k :: j < k < |tr| ==> !Closes(tr[k], a);
    }
    if LastClose(tr, i, j, a) {
      assert j < |pre|;
      assert forall k :: j < k < |pre| ==> tr[k] == pre[k] && !Closes(tr[k], a);
    }
  }

  lemma SeedsSame(hz: nat, pre: seq<Event>, e: Event, i: nat, a: SockAddr)
    requires Never(hz) >= 0 && i < |pre|
    ensures Seeds(hz, pre + [e], i, a) <==> Seeds(hz, pre, i, a)
  {
    PrefixSame(pre, e, i);
  }

  /** An event that neither closes nor ends trust leaves the explanation standing; if it re-arms, the
      entry is reset. */
  lemma ExplainsKeep(hz: nat, pre: seq<Event>, e: Event, i: nat, a: SockAddr, v: nat, w: nat)
    requires Never(hz) >= 0 && Explains(hz, pre, i, a, v) && !Removes(e, a) && !Closes(e, a)
    requires w == v || (w == Never(hz) && forall j :: LastClose(pre, i, j, a) && v == pre[j].now ==>
                        Rearms(hz, pre + [e], |pre|, a, pre[j].now))
    ensures Explains(hz, pre + [e], i, a, w)
  {
    var tr := pre + [e];
    SeedsSame(hz, pre, e, i, a);
    forall j ensures LastClose(tr, i, j, a) <==> LastClose(pre, i, j, a) { LastCloseSame(pre, e, i, j, a); }
    forall j | LastClose(tr, i, j, a) ensures w == tr[j].now || Rearmed(hz, tr, j, a) {
      assert LastClose(pre, i, j, a) && tr[j] == pre[j];
      if v == pre[j].now {
        if w != v { assert Rearms(hz, tr, |pre|, a, tr[j].now); }
      } else {
        RearmedLater(hz, pre, e, j, a);
      }
    }
    if w == v && v != Never(hz) {
      var j :| LastClose(pre, i, j, a) && v == pre[j].now;
      assert LastClose(tr, i, j, a) && w == tr[j].now;
    }
  }

  lemma ExplainsClose(hz: nat, pre: seq<Event>, e: Event, i: nat, a: SockAddr, v: nat)
    requires Never(hz) >= 0 && Explains(hz, pre, i, a, v) && !Removes(e, a) && Closes(e, a)
    ensures Explains(hz, pre + [e], i, a, e.now)
  {
    var tr := pre + [e];
    SeedsSame(hz, pre, e, i, a);
    assert tr[|pre|] == e;
    assert LastClose(tr, i, |pre|, a);
    assert forall j :: LastClose(tr, i, j, a) ==> j == |pre|;
  }

  lemma ExplainsSeed(hz: nat, pre: seq<Event>, e: Event, a: SockAddr)
    requires Never(hz) >= 0 && Seeds(hz, pre + [e], |pre|, a)
    ensures Explains(hz, pre + [e], |pre|, a, Never(hz))
  {
  }

  /** The time test is exact as long as the sum stays inside 64 bits. */
  lemma OutdatedExact(hz: nat, fin: nat, now: nat)
    requires 0 <= fin <= Never(hz) && now < TWO64
    ensures Outdated(hz, fin, now) <==> fin + 60 * hz < now
    ensures fin == Never(hz) ==> !Outdated(hz, fin, now)
  {
    NoWrap(fin + Timeout(hz));
  }

  /** Every trusted peer was seeded by some event, and nothing since has ended that trust. */
  lemma {:induction false} EntryExplained(hz: nat, tr: seq<Event>, a: SockAddr) returns (i: nat)
    requires Never(hz) >= 0 && Timely(hz, tr) && a in Run(hz, tr).conns
    ensures Explains(hz, tr, i, a, Run(hz, tr).conns[a])
    decreases |tr|
  {
    var n := |tr| - 1;
    var pre, e := tr[..n], tr[n];
    var s := Run(hz, pre);
    assert pre + [e] == tr;
    assert tr[..n] == pre;
    if e.peer != a {
      StepElsewhere(hz, s, e, a);
      i := EntryExplained(hz, pre, a);
      ExplainsKeep(hz, pre, e, i, a, s.conns[a], s.conns[a]);
    } else {
      CookieShown(hz, pre, e);
      var x := EffectOn(hz, s, e, a);
      match x {
        case Trust =>
          i := n;
          ExplainsSeed(hz, pre, e, a);
        case Close(at) =>
          i := EntryExplained(hz, pre, a);
          ExplainsClose(hz, pre, e, i, a, s.conns[a]);
        case Rearm =>
          i := EntryExplained(hz, pre, a);
          RearmIsLate(hz, pre, e, i, a, s.conns[a]);
          ExplainsKeep(hz, pre, e, i, a, s.conns[a], Never(hz));
        case Keep =>
          i := EntryExplained(hz, pre, a);
          ExplainsKeep(hz, pre, e, i, a, s.conns[a], s.conns[a]);
      }
    }
  }

  lemma RearmIsLate(hz: nat, pre: seq<Event>, e: Event, i: nat, a: SockAddr, v: nat)
    requires Never(hz) >= 0 && Timely(hz, pre + [e]) && Explains(hz, pre, i, a, v)
    requires e.Egress? && e.peer == a && !e.flags.rst && !e.flags.fin && Outdated(hz, v, e.now)
    ensures forall j :: LastClose(pre, i, j, a) && v == pre[j].now ==> Rearms(hz, pre + [e], |pre|, a, pre[j].now)
  {
    var tr := pre + [e];
    assert tr[|pre|] == e;
    forall j | LastClose(pre, i, j, a) && v == pre[j].now ensures Rearms(hz, tr, |pre|, a, pre[j].now) {
      assert tr[j] == pre[j];
      OutdatedExact(hz, v, e.now);
    }
  }

  /** The peer's latest FIN since `i`, if any, is within the close timeout or was re-armed since. */
  ghost predicate StillOpen(hz: nat, tr: seq<Event>, i: nat, a: SockAddr, now: nat)
    requires Never(hz) >= 0
  {
    forall j :: LastClose(tr, i, j, a) ==> now <= tr[j].now + 60 * hz || Rearmed(hz, tr, j, a)
  }

  /** Grounds for letting a segment in: it shows a cookie, or its peer was seeded by event
      `i`, nothing has ended that trust, and no FIN has timed out. */
  ghost predicate Grounds(hz: nat, tr: seq<Event>, e: Event, i: nat)
    requires Never(hz) >= 0
  {
    || ShowsCookie(hz, tr, e)
    || (i < |tr| && !e.Evict? && Seeds(hz, tr, i, e.peer) && Unbroken(tr, i, e.peer) && StillOpen(hz, tr, i, e.peer, e.now))
  }

  /** Safety over whole traces: with authentication on, a segment other than a bare SYN goes on only
      if the SYN-cookie path admits it, or its peer was seeded by an earlier event, no RST or eviction
      has come since, and its latest FIN has not timed out. */
  lemma AuthenticatedOnly(hz: nat, tr: seq<Event>, e: Event) returns (i: nat)
    requires Never(hz) >= 0 && Timely(hz, tr) && e.Ingress? && e.now < TWO64
    requires e.cfg.auth && !BareSyn(e.flags) && VerdictOf(hz, tr, e) == Continue
    ensures Grounds(hz, tr, e, i)
  {
    i := 0;
    var s := Run(hz, tr);
    CookieShown(hz, tr, e);
    if !CookieAdmits(hz, s, e) {
      assert Trusted(hz, s, e.peer, e.now);
      i := EntryExplained(hz, tr, e.peer);
      var v := s.conns[e.peer];
      forall j | LastClose(tr, i, j, e.peer)
        ensures e.now <= tr[j].now + 60 * hz || Rearmed(hz, tr, j, e.peer)
      {
        if v == tr[j].now { OutdatedExact(hz, v, e.now); }
      }
    }
  }
}
