/** The connection table and the filters that update it in place, packet by packet. */
module TcpTracker {
  import opened Basics
  import opened TcpAuth

  /** How the ingress filter is told about a segment. */
  datatype AuthEvent = Normal | Rst | Fin

  class Tracker {
    const hz: nat
    /** The shared connection map: peer to time of its last FIN. */
    var conns: map<SockAddr, nat>
    /** The SYN-cookie timestamps of each CPU. */
    var stamps: map<nat, Stamps>
    /** Everything handled so far. */
    ghost var trace: seq<Event>

    ghost function Now(): State
      reads this`conns, this`stamps
    {
      State(conns, stamps)
    }

    ghost predicate Valid()
      reads this
    {
      Never(hz) >= 0 && Now() == Run(hz, trace)
    }

    constructor (ticks: nat)
      requires Never(ticks) >= 0
      ensures Valid() && hz == ticks && trace == []
    {
      hz, conns, stamps, trace := ticks, map[], map[], [];
    }

    /** Lets a segment through only if authentication is off or its peer is trusted. */
    method ConnIngressFilter(cfg: Cfg, now: nat, peer: SockAddr, ev: AuthEvent) returns (v: Verdict)
      modifies this`conns
      ensures v == if !cfg.auth || old(Trusted(hz, Now(), peer, now)) then Continue else Drop
      ensures conns ==
        if !cfg.auth then old(conns)
        else if v == Drop || ev == Rst then old(conns) - {peer}
        else if ev == Fin then old(conns)[peer := now]
        else old(conns)
    {
      if !cfg.auth { return Continue; }
      if peer !in conns {
        assert conns - {peer} == conns;
        return Drop;
      }
      if Outdated(hz, conns[peer], now) {
        conns := conns - {peer};
        return Drop;
      }
      match ev {
        case Rst => conns := conns - {peer};
        case Fin => conns := conns[peer := now];
        case Normal =>
      }
      return Continue;
    }

    method ConnEgressLearning(e: Event)
      requires Never(hz) >= 0 && e.Egress?
      modifies this`conns
      ensures Now() == Step(hz, old(Now()), e)
    {
      var peer := e.peer;
      if e.flags.rst {
        conns := conns - {peer};
        return;
      }
      if peer !in conns {
        if !e.cfg.auth || e.flags.syn { conns := conns[peer := Never(hz)]; }
        return;
      }
      if e.flags.fin {
        conns := conns[peer := e.now];
        return;
      }
      if Outdated(hz, conns[peer], e.now) { conns := conns[peer := Never(hz)]; }
    }

    method InFloodMode(cfg: Cfg, now: nat, cpu: nat) returns (on: bool)
      modifies this`stamps
      ensures on == FloodMode(StampsOf(old(stamps), cpu), cfg, now)
      ensures stamps == if on then old(stamps)[cpu := StampsOf(old(stamps), cpu).(lastTry := now)] else old(stamps)
    {
      var t := StampsOf(stamps, cpu);
      on := cfg.floodTimer >= Sub64(now, t.lastGen);
      if on { stamps := stamps[cpu := t.(lastTry := now)]; }
    }

    method InPassiveMode(cfg: Cfg, now: nat, cpu: nat) returns (on: bool)
      modifies this`stamps
      ensures on == PassiveMode(StampsOf(old(stamps), cpu), cfg, now)
      ensures stamps == if on then old(stamps)[cpu := StampsOf(old(stamps), cpu).(lastTry := now)] else old(stamps)
    {
      var t := StampsOf(stamps, cpu);
      on := cfg.passiveTimer <= Sub64(now, t.lastTry);
      if on { stamps := stamps[cpu := t.(lastTry := now)]; }
    }

    method RcvSynFilter(e: Event) returns (v: Verdict)
      requires e.Ingress? && BareSyn(e.flags)
      modifies this`stamps
      ensures v == VerdictAt(hz, old(Now()), e) && stamps == Stamped(old(Now()), e)
    {
      if e.env.syn.RateLimited? { return Drop; }
      if !e.cfg.syncookie { return Continue; }
      var active := InFloodMode(e.cfg, e.now, e.env.cpu);
      if !active { active := InPassiveMode(e.cfg, e.now, e.env.cpu); }
      if !active { return Continue; }
      if e.env.syn.CookieDeclined? { return Continue; }
      stamps := stamps[e.env.cpu := StampsOf(stamps, e.env.cpu).(lastGen := e.now)];
      return if e.env.syn.CookieSent? then Tx else Drop;
    }

    method RcvAckFilter(e: Event) returns (v: Verdict)
      requires Never(hz) >= 0 && e.Ingress? && PureAck(e.flags)
      modifies this`conns, this`stamps
      ensures v == VerdictAt(hz, old(Now()), e) && Now() == Step(hz, old(Now()), e)
    {
      if !e.cfg.syncookie {
        v := ConnIngressFilter(e.cfg, e.now, e.peer, Normal);
        return;
      }
      var flood := InFloodMode(e.cfg, e.now, e.env.cpu);
      if !flood {
        v := ConnIngressFilter(e.cfg, e.now, e.peer, Normal);
        return;
      }
      if e.cfg.auth && e.peer in conns && !Outdated(hz, conns[e.peer], e.now) { return Continue; }
      if e.env.sock.NoSocket? { return Drop; }
      if e.env.sock.Listening? && !e.env.sock.cookieOk { return Drop; }
      conns := conns[e.peer := Never(hz)];
      return Continue;
    }

    /** The TCP part of the ingress program. */
    method TcpFlagsFilter(e: Event) returns (v: Verdict)
      requires Never(hz) >= 0 && e.Ingress?
      modifies this`conns, this`stamps
      ensures v == VerdictAt(hz, old(Now()), e) && Now() == Step(hz, old(Now()), e)
    {
      var f := e.flags;
      assert e.peer !in conns ==> conns - {e.peer} == conns;
      if f.fin {
        v := ConnIngressFilter(e.cfg, e.now, e.peer, Fin);
      } else if f.rst {
        v := ConnIngressFilter(e.cfg, e.now, e.peer, Rst);
        if v == Continue && !e.env.rstAllowed { v := Drop; }
      } else if f.syn && f.ack {
        v := ConnIngressFilter(e.cfg, e.now, e.peer, Normal);
      } else if f.syn {
        v := RcvSynFilter(e);
      } else if f.ack {
        v := RcvAckFilter(e);
      } else {
        v := ConnIngressFilter(e.cfg, e.now, e.peer, Normal);
      }
    }

    /** Handles one event. With authentication on, a segment other than a bare SYN goes on only with
        grounds in everything handled before. */
    method Handle(e: Event) returns (v: Verdict, ghost i: nat)
      requires Valid()
      modifies this
      ensures Valid() && trace == old(trace) + [e]
      ensures e.Ingress? ==> v == VerdictOf(hz, old(trace), e) && Ruled(hz, old(trace), e, v, conns)
      ensures e.Ingress? && v == Continue && e.cfg.auth && !BareSyn(e.flags) && Timely(hz, old(trace)) && e.now < TWO64 ==>
        Grounds(hz, old(trace), e, i)
    {
      RunSnoc(hz, trace, e);
      v, i := Continue, 0;
      match e {
        case Ingress(cfg, now, _, f, _) =>
          EverySegmentRuled(hz, trace, e);
          v := TcpFlagsFilter(e);
          if v == Continue && cfg.auth && !BareSyn(f) && Timely(hz, trace) && now < TWO64 {
            i := AuthenticatedOnly(hz, trace, e);
          }
        case Egress(_, _, _, _) => ConnEgressLearning(e);
        case Evict(peer) => conns := conns - {peer};
      }
      trace := trace + [e];
    }
  }
}
