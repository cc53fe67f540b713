/** TCP options of the SYN-cookie path: the bounded parser, the SYN-ACK option writer and the
    timestamp that carries the options a cookie cannot (section 3.1 of RFC 9293, sections 2
    and 3 of RFC 7323). */
module TcpOptions {
  import opened Basics

  const EOL: Octet := 0
  const NOP: Octet := 1
  const MSS: Octet := 2
  const WSCALE: Octet := 3
  const SACK_PERM: Octet := 4
  const TIMESTAMP: Octet := 8

  const WSCALE_MAX: nat := 14
  const DEFAULT_WSCALE: Octet := 7
  const OPTS_MAX: nat := 40
  const BUF_SZ: nat := 48
  const TCP_HDR: nat := 20

  datatype Errno = Ok | EINVAL | E2BIG

  /** What the SYN-cookie path keeps of a client's options. */
  datatype Opts = Opts(ts: nat, wscale: nat, sackPerm: bool)

  // ----- the options as a list

  datatype Item = Nop | Opt(kind: Octet, body: seq<Octet>)

  predicate WellSized(kind: Octet, len: int) {
    (kind == WSCALE ==> len == 3) && (kind == SACK_PERM ==> len == 2) && (kind == TIMESTAMP ==> len == 10)
  }

  predicate Sendable(item: Item) {
    item.Opt? ==> item.kind != EOL && item.kind != NOP && |item.body| <= 253 && WellSized(item.kind, |item.body| + 2)
  }

  predicate AllSendable(items: seq<Item>) {
    forall i :: 0 <= i < |items| ==> Sendable(items[i])
  }

  /** An item on the wire; only bodies of up to 253 octets have a length octet. */
  function Bytes(item: Item): seq<Octet> {
    if item.Nop? then [NOP] else [item.kind, if |item.body| <= 253 then |item.body| + 2 else 0] + item.body
  }

  /** The items on the wire, in order. */
  function Encode(items: seq<Item>): seq<Octet> {
    if items == [] then [] else Bytes(items[0]) + Encode(items[1..])
  }

  /** The items read before the end of the list or before the first malformed one. */
  datatype Scanned = Scanned(items: seq<Item>, ok: bool)

  /** The option list an option area holds. */
  function Scan(area: seq<Octet>): (s: Scanned)
    ensures AllSendable(s.items)
    decreases |area|
  {
    if area == [] || area[0] == EOL then Scanned([], true)
    else if area[0] == NOP then
      var rest := Scan(area[1..]);
      Scanned([Nop] + rest.items, rest.ok)
    else if |area| < 2 || area[1] < 2 || area[1] > |area| || !WellSized(area[0], area[1]) then Scanned([], false)
    else
      var rest := Scan(area[area[1]..]);
      Scanned([Opt(area[0], area[2..area[1]])] + rest.items, rest.ok)
  }

  /** Nothing, or an end-of-list octet and whatever follows it. */
  predicate Terminal(tail: seq<Octet>) {
    tail == [] || tail[0] == EOL
  }

  /** Every list of well-sized options is read back as it was written. */
  lemma {:induction false} ScanEncode(items: seq<Item>, tail: seq<Octet>)
    requires AllSendable(items) && Terminal(tail)
    ensures Scan(Encode(items) + tail) == Scanned(items, true)
    decreases |items|
  {
    if items == [] {
      assert Encode(items) + tail == tail;
    } else {
      var item, rest := items[0], items[1..];
      assert Sendable(item) && AllSendable(rest);
      assert items == [item] + rest;
      ScanEncode(rest, tail);
      Assoc(Bytes(item), Encode(rest), tail);
      ScanFirst(item, Encode(rest) + tail);
    }
  }

  lemma Assoc(a: seq<Octet>, b: seq<Octet>, c: seq<Octet>)
    ensures a + b + c == a + (b + c)
  {
  }

  lemma ScanFirst(item: Item, rest: seq<Octet>)
    requires Sendable(item)
    ensures Scan(Bytes(item) + rest) == Scanned([item] + Scan(rest).items, Scan(rest).ok)
  {
    var area := Bytes(item) + rest;
    match item
    case Nop =>
      assert area[1..] == rest;
    case Opt(kind, body) =>
      assert area[0] == kind && area[1] == |body| + 2;
      assert area[2..area[1]] == body;
      assert area[area[1]..] == rest;
  }

  /** An area is accepted only if it is such a list: with ScanEncode, exactly if. */
  lemma {:induction false} ScanSound(area: seq<Octet>) returns (tail: seq<Octet>)
    requires Scan(area).ok
    ensures area == Encode(Scan(area).items) + tail && Terminal(tail)
    decreases |area|
  {
    if Terminal(area) {
      tail := area;
      assert area == Encode([]) + tail;
    } else {
      var len, item := FirstItem(area);
      var rest := Scan(area[len..]).items;
      tail := ScanSound(area[len..]);
      Prepended(area, len, item, rest, tail);
    }
  }

  lemma Prepended(area: seq<Octet>, len: nat, item: Item, rest: seq<Item>, tail: seq<Octet>)
    requires len <= |area| && area[..len] == Bytes(item) && area[len..] == Encode(rest) + tail
    ensures area == Encode([item] + rest) + tail
  {
    EncodeFirst(item, rest);
    Assoc(Bytes(item), Encode(rest), tail);
    assert area == area[..len] + area[len..];
  }

  lemma FirstItem(area: seq<Octet>) returns (len: nat, item: Item)
    requires !Terminal(area) && Scan(area).ok
    ensures 1 <= len <= |area| && Sendable(item) && area[..len] == Bytes(item)
    ensures Scan(area) == Scanned([item] + Scan(area[len..]).items, Scan(area[len..]).ok)
  {
    if area[0] == NOP {
      len, item := 1, Nop;
    } else {
      len, item := area[1], Opt(area[0], area[2..area[1]]);
    }
  }

  lemma EncodeFirst(item: Item, rest: seq<Item>)
    ensures Encode([item] + rest) == Bytes(item) + Encode(rest)
  {
    assert ([item] + rest)[1..] == rest;
  }

  // ----- what the options mean

  function Be32(b: seq<Octet>): nat
    requires |b| == 4
  {
    b[0] as nat * 0x100_0000 + b[1] as nat * 0x1_0000 + b[2] as nat * 0x100 + b[3] as nat
  }

  function Take(o: Opts, item: Item): Opts
    requires Sendable(item)
  {
    if item.Nop? then o
    else if item.kind == WSCALE then o.(wscale := if item.body[0] <= WSCALE_MAX then item.body[0] else WSCALE_MAX)
    else if item.kind == SACK_PERM then o.(sackPerm := true)
    else if item.kind == TIMESTAMP && o.ts == 0 then o.(ts := Be32(item.body[..4]))
    else o
  }

  function TakeAll(o: Opts, items: seq<Item>): Opts
    requires AllSendable(items)
    decreases |items|
  {
    if items == [] then o else TakeAll(Take(o, items[0]), items[1..])
  }

  predicate IsOpt(item: Item, kind: Octet) { item.Opt? && item.kind == kind }

  predicate NoneOf(items: seq<Item>, kind: Octet) {
    forall i :: 0 <= i < |items| ==> !IsOpt(items[i], kind)
  }

  lemma {:induction false} TakeNone(o: Opts, items: seq<Item>)
    requires AllSendable(items)
    ensures NoneOf(items, WSCALE) ==> TakeAll(o, items).wscale == o.wscale
    ensures NoneOf(items, SACK_PERM) ==> TakeAll(o, items).sackPerm == o.sackPerm
    ensures NoneOf(items, TIMESTAMP) || o.ts != 0 ==> TakeAll(o, items).ts == o.ts
    decreases |items|
  {
    if items != [] { TakeNone(Take(o, items[0]), items[1..]); }
  }

  /** The last window scale counts, capped at 14. */
  lemma {:induction false} LastScaleTaken(o: Opts, items: seq<Item>, i: nat)
    requires AllSendable(items) && i < |items| && IsOpt(items[i], WSCALE) && NoneOf(items[i + 1..], WSCALE)
    ensures TakeAll(o, items).wscale == if items[i].body[0] <= 14 then items[i].body[0] else 14
    decreases |items|
  {
    if i == 0 {
      TakeNone(Take(o, items[0]), items[1..]);
    } else {
      assert items[1..][i - 1] == items[i] && items[1..][i..] == items[i + 1..];
      LastScaleTaken(Take(o, items[0]), items[1..], i - 1);
    }
  }

  /** The first timestamp that is not zero counts. */
  lemma {:induction false} FirstTimestampTaken(o: Opts, items: seq<Item>, i: nat)
    requires AllSendable(items) && i < |items| && o.ts == 0
    requires IsOpt(items[i], TIMESTAMP) && Be32(items[i].body[..4]) != 0
    requires forall j :: 0 <= j < i && IsOpt(items[j], TIMESTAMP) ==> Be32(items[j].body[..4]) == 0
    ensures TakeAll(o, items).ts == Be32(items[i].body[..4])
    ensures var b := items[i].body;
      TakeAll(o, items).ts == 0x100_0000 * (b[0] as nat) + 0x1_0000 * (b[1] as nat) + 0x100 * (b[2] as nat) + b[3]
    decreases |items|
  {
    if i == 0 {
      TakeNone(Take(o, items[0]), items[1..]);
    } else {
      assert items[1..][i - 1] == items[i];
      FirstTimestampTaken(Take(o, items[0]), items[1..], i - 1);
    }
  }

  lemma {:induction false} SackTaken(o: Opts, items: seq<Item>, i: nat)
    requires AllSendable(items) && i < |items| && IsOpt(items[i], SACK_PERM)
    ensures TakeAll(o, items).sackPerm
    decreases |items|
  {
    if i == 0 {
      SackKept(Take(o, items[0]), items[1..]);
    } else {
      assert items[1..][i - 1] == items[i];
      SackTaken(Take(o, items[0]), items[1..], i - 1);
    }
  }

  lemma {:induction false} SackKept(o: Opts, items: seq<Item>)
    requires AllSendable(items) && o.sackPerm
    ensures TakeAll(o, items).sackPerm
    decreases |items|
  {
    if items != [] { SackKept(Take(o, items[0]), items[1..]); }
  }

  /** Reading the rest of an area on top of `o`. */
  function Outcome(o: Opts, area: seq<Octet>): (Opts, bool) {
    (TakeAll(o, Scan(area).items), Scan(area).ok)
  }

  // ----- the parser

  class OptCtx {
    const buf: array<Octet>
    const optLen: nat
    var opts: Opts
    var off: nat
    var err: Errno

    ghost predicate Valid()
      reads this
    {
      buf.Length == BUF_SZ && off <= optLen
    }

    ghost function Rest(): seq<Octet>
      requires Valid() && optLen <= BUF_SZ
      reads this, buf
    {
      buf[off..optLen]
    }

    constructor (buf: array<Octet>, optLen: nat, opts: Opts)
      requires buf.Length == BUF_SZ
      ensures Valid() && this.buf == buf && this.optLen == optLen && this.opts == opts && off == 0 && err == E2BIG
    {
      this.buf, this.optLen, this.opts, off, err := buf, optLen, opts, 0, E2BIG;
    }

    /** One option. Stopping, `err` and `opts` are the outcome; going on, the rest has the same one. */
    method ParseOne() returns (stop: bool)
      requires Valid()
      modifies this
      ensures Valid()
      ensures optLen > BUF_SZ ==> stop && err == EINVAL && opts == old(opts)
      ensures optLen <= BUF_SZ && stop ==> (opts, err == Ok) == old(Outcome(opts, Rest())) && err != E2BIG
      ensures optLen <= BUF_SZ && !stop ==>
        off > old(off) && err == old(err) && Outcome(opts, Rest()) == old(Outcome(opts, Rest()))
    {
      if optLen > BUF_SZ {
        err := EINVAL;
        return true;
      }
      if off >= optLen {
        err := Ok;
        return true;
      }
      ghost var area := Rest();
      var kind := buf[off];
      assert area[0] == kind;
      if kind == EOL {
        err := Ok;
        return true;
      }
      if kind == NOP {
        TakeFirst(opts, area, 1, Nop);
        off := off + 1;
        assert Rest() == area[1..];
        return false;
      }
      stop := ParseSized(kind);
    }

    /** An option with a length octet. */
    method ParseSized(kind: Octet) returns (stop: bool)
      requires Valid() && off < optLen <= BUF_SZ && kind == buf[off] && kind != EOL && kind != NOP
      modifies this
      ensures Valid()
      ensures stop ==> (opts, err == Ok) == old(Outcome(opts, Rest())) && err != E2BIG
      ensures !stop ==> off > old(off) && err == old(err) && Outcome(opts, Rest()) == old(Outcome(opts, Rest()))
    {
      ghost var area, was := Rest(), opts;
      assert area[0] == kind;
      if off + 2 > optLen {
        err := EINVAL;
        return true;
      }
      var len := buf[off + 1];
      assert area[1] == len;
      if len < 2 || off + len > optLen {
        err := EINVAL;
        return true;
      }
      var ok := TakeValue(kind, len);
      if !ok {
        err := EINVAL;
        return true;
      }
      SubSlice(buf[..], off, optLen, 2, len);
      TakeFirst(was, area, len, Opt(kind, area[2..len]));
      off := off + len;
      assert Rest() == area[len..];
      return false;
    }

    /** Stores the value of the option of `len` octets at `off`, if it has the right size. */
    method TakeValue(kind: Octet, len: nat) returns (ok: bool)
      requires Valid() && kind != EOL && kind != NOP && 2 <= len < 256 && off + len <= BUF_SZ
      modifies this`opts
      ensures ok == WellSized(kind, len)
      ensures ok ==> opts == Take(old(opts), Opt(kind, buf[off + 2..off + len]))
      ensures !ok ==> opts == old(opts)
    {
      ghost var body := buf[off + 2..off + len];
      if kind == WSCALE {
        if len != 3 { return false; }
        var ws := buf[off + 2];
        assert body[0] == ws;
        opts := opts.(wscale := if ws <= WSCALE_MAX then ws else WSCALE_MAX);
      } else if kind == SACK_PERM {
        if len != 2 { return false; }
        opts := opts.(sackPerm := true);
      } else if kind == TIMESTAMP {
        if len != 10 { return false; }
        if opts.ts == 0 {
          var ts := buf[off + 2..off + 6];
          assert body[..4] == ts;
          opts := opts.(ts := Be32(ts));
        }
      }
      ok := true;
    }
  }

  lemma SubSlice(s: seq<Octet>, off: nat, end: nat, a: nat, b: nat)
    requires a <= b && off + b <= end <= |s|
    ensures s[off + a..off + b] == s[off..end][a..b]
  {
    var l, r := s[off + a..off + b], s[off..end][a..b];
    forall k | 0 <= k < b - a ensures l[k] == r[k] {
      assert s[off..end][a + k] == s[off + a + k];
    }
    assert l == r;
  }

  lemma TakeFirst(o: Opts, area: seq<Octet>, len: nat, item: Item)
    requires !Terminal(area) && 1 <= len <= |area| && Sendable(item)
    requires if area[0] == NOP then len == 1 && item == Nop
             else len >= 2 && area[1] == len && WellSized(area[0], len) && item == Opt(area[0], area[2..len])
    ensures Outcome(o, area) == Outcome(Take(o, item), area[len..])
  {
    var items := Scan(area).items;
    assert items[0] == item && items[1..] == Scan(area[len..]).items;
  }

  /** A zeroed parsing buffer with `len` octets of the packet in front. */
  method LoadBytes(packet: seq<Octet>, start: nat, len: nat) returns (buf: array<Octet>)
    requires start + len <= |packet| && len <= BUF_SZ
    ensures fresh(buf) && buf.Length == BUF_SZ && buf[..len] == packet[start..start + len]
  {
    buf := new Octet[BUF_SZ](i => 0);
    forall i | 0 <= i < len { buf[i] := packet[start + i]; }
  }

  /** Parses the options of the TCP header at `th`. The outcome is that of the option list; the limit
      of 41 iterations is never what ends the loop. */
  method ParseOpts(packet: seq<Octet>, th: nat, doff: nat, before: Opts) returns (err: Errno, opts: Opts)
    requires doff < 16
    ensures doff < 5 ==> err == EINVAL && opts == before
    ensures doff == 5 ==> err == Ok && opts == before
    ensures doff > 5 && th + doff * 4 > |packet| ==> err == EINVAL && opts == before
    ensures doff > 5 && th + doff * 4 <= |packet| ==>
      var outcome := Outcome(before, packet[th + TCP_HDR..th + doff * 4]);
      opts == outcome.0 && err == if outcome.1 then Ok else EINVAL
  {
    var thLen := doff * 4;
    if thLen < TCP_HDR { return EINVAL, before; }
    var optLen := thLen - TCP_HDR;
    if optLen > OPTS_MAX { return E2BIG, before; }
    if optLen == 0 { return Ok, before; }
    var start := th + TCP_HDR;
    if start + optLen > |packet| { return EINVAL, before; }
    var buf := LoadBytes(packet, start, optLen);
    var c := new OptCtx(buf, optLen, before);
    ghost var area := packet[start..start + optLen];
    assert c.Rest() == area;
    Run(c);
    err, opts := c.err, c.opts;
  }

  /** At most 41 options. */
  method Run(c: OptCtx)
    requires c.Valid() && c.off == 0 && c.optLen <= OPTS_MAX
    modifies c
    ensures (c.opts, c.err == Ok) == old(Outcome(c.opts, c.Rest())) && c.err != E2BIG
  {
    ghost var outcome := Outcome(c.opts, c.Rest());
    var i, stop := 0, false;
    while i < OPTS_MAX + 1 && !stop
      invariant 0 <= i <= OPTS_MAX + 1 && c.Valid()
      invariant if stop then (c.opts, c.err == Ok) == outcome && c.err != E2BIG
                else i <= c.off && Outcome(c.opts, c.Rest()) == outcome
    {
      stop := c.ParseOne();
      i := i + 1;
    }
  }

  // ----- the timestamp cookie

  /** Window scale (15: none), SACK and ECN in the low six bits. The fields do not overlap, so adding
      them is or-ing them. */
  function CookieBits(opts: Opts, ece: bool): (co: nat)
    ensures co < 64
  {
    (if opts.wscale != 0 then opts.wscale % 16 else 15) + (if opts.sackPerm then 16 else 0) + (if ece then 32 else 0)
  }

  function CookieTs(co: nat, now: nat): (ts: nat)
    requires co < 64 && now < TWO32
    ensures ts < TWO32
  {
    var ts := now / 64 * 64 + co;
    if ts <= now then ts else (ts - 64) % TWO32
  }

  /** The cookie is the one clock value of the last 64 milliseconds, modulo 2^32, with these low bits. */
  lemma CookieTsExact(co: nat, now: nat, t: nat)
    requires co < 64 && now < TWO32 && t < TWO32
    ensures t == CookieTs(co, now) <==> t % 64 == co && (now - t) % TWO32 < 64
  {
    var q, r := now / 64, now % 64;
    assert now == 64 * q + r;
    if t == CookieTs(co, now) {
      IsRecent(q, r, co, t);
    }
    if t % 64 == co && (now - t) % TWO32 < 64 {
      OnlyRecent(q, r, co, t, t / 64);
    }
  }

  lemma IsRecent(q: nat, r: nat, co: nat, t: nat)
    requires r < 64 && co < 64 && 64 * q + r < TWO32
    requires t == if co <= r then 64 * q + co else (64 * q + co - 64) % TWO32
    ensures t % 64 == co && (64 * q + r - t) % TWO32 < 64
  {
    if co > r && q == 0 {
      assert t == 64 * (TWO32 / 64 - 1) + co;
    } else if co > r {
      assert t == 64 * (q - 1) + co;
    }
  }

  lemma OnlyRecent(q: nat, r: nat, co: nat, t: nat, p: nat)
    requires r < 64 && co < 64 && 64 * q + r < TWO32 && t < TWO32
    requires t == 64 * p + co && (64 * q + r - t) % TWO32 < 64
    ensures t == if co <= r then 64 * q + co else (64 * q + co - 64) % TWO32
  {
    var d := 64 * q + r - t;
    assert d % TWO32 == if d >= 0 then d else d + TWO32;
  }

  /** The fields can be read back from the cookie. */
  lemma CookieFields(opts: Opts, ece: bool, now: nat)
    requires now < TWO32
    ensures var ts := CookieTs(CookieBits(opts, ece), now);
            ts % 16 == (if opts.wscale != 0 then opts.wscale % 16 else 15)
            && ts / 16 % 2 == (if opts.sackPerm then 1 else 0) && ts / 32 % 2 == (if ece then 1 else 0)
  {
    var co := CookieBits(opts, ece);
    CookieTsExact(co, now, CookieTs(co, now));
    LowFields(CookieTs(co, now), co, CookieTs(co, now) / 64);
  }

  lemma LowFields(ts: nat, co: nat, p: nat)
    requires co < 64 && ts == 64 * p + co
    ensures ts % 16 == co % 16 && ts / 16 % 2 == co / 16 % 2 && ts / 32 % 2 == co / 32 % 2
  {
    DivideBy(ts, 16, 4 * p + co / 16, co % 16);
    DivideBy(ts, 32, 2 * p + co / 32, co % 32);
    DivideBy(4 * p + co / 16, 2, 2 * p + co / 32, co / 16 % 2);
    DivideBy(2 * p + co / 32, 2, p, co / 32);
  }

  lemma DivideBy(x: nat, m: nat, q: nat, r: nat)
    requires m in {2, 16, 32} && r < m && x == m * q + r
    ensures x / m == q && x % m == r
  {
  }

  // ----- the writer

  function Bytes16(x: nat): (b: seq<Octet>)
    requires x < 0x1_0000
    ensures |b| == 2 && 0x100 * (b[0] as nat) + b[1] == x
  {
    [x / 0x100, x % 0x100]
  }

  function Bytes32(x: nat): (b: seq<Octet>)
    requires x < TWO32
    ensures |b| == 4 && Be32(b) == x
  {
    Bytes16(x / 0x1_0000) + Bytes16(x % 0x1_0000)
  }

  predicate Stamped(room: nat, opts: Opts) { opts.ts != 0 && room >= 20 }

  /** What a SYN-ACK advertises when `room` octets of the packet follow its TCP header: the segment
      size `m`, window scaling, SACK, and a timestamp option with the body `stamp`. */
  function Advertised(room: nat, m: seq<Octet>, opts: Opts, stamp: seq<Octet>): (items: seq<Item>)
    requires |m| == 2 && |stamp| == 8
    ensures AllSendable(items)
  {
    AdvertisedFirst(room, m) + AdvertisedLast(room, opts, stamp)
  }

  function AdvertisedFirst(room: nat, m: seq<Octet>): (items: seq<Item>)
    requires |m| == 2
    ensures AllSendable(items)
  {
    if room < 4 then [] else if room < 8 then [Opt(MSS, m)]
    else [Opt(MSS, m)] + [Nop, Opt(WSCALE, [DEFAULT_WSCALE])]
  }

  function AdvertisedLast(room: nat, opts: Opts, stamp: seq<Octet>): (items: seq<Item>)
    requires |stamp| == 8
    ensures AllSendable(items)
  {
    if room < 12 then []
    else if Stamped(room, opts) then
      (if opts.sackPerm then [Opt(SACK_PERM, [])] else [Nop, Nop]) + [Opt(TIMESTAMP, stamp)]
    else if opts.sackPerm then [Opt(SACK_PERM, []), Nop] else []
  }

  /** The end-of-list octet that pads a last SACK word. */
  function Pad(room: nat, opts: Opts): seq<Octet> {
    if room >= 12 && opts.sackPerm && !Stamped(room, opts) then [EOL] else []
  }

  function Reply(room: nat, m: seq<Octet>, opts: Opts, stamp: seq<Octet>): seq<Octet>
    requires |m| == 2 && |stamp| == 8
  {
    Encode(Advertised(room, m, opts, stamp)) + Pad(room, opts)
  }

  /** Writes a word behind what was written so far. */
  method PutDword(pkt: array<Octet>, start: nat, o: nat, d: seq<Octet>, ghost was: seq<Octet>, ghost sent: seq<Octet>)
    requires |d| == 4 && o + 4 <= pkt.Length == |was| && start + |sent| == o
    requires pkt[..] == was[..start] + sent + was[o..]
    modifies pkt
    ensures pkt[..] == was[..start] + (sent + d) + was[o + 4..]
  {
    pkt[o], pkt[o + 1], pkt[o + 2], pkt[o + 3] := d[0], d[1], d[2], d[3];
    assert pkt[..] == was[..start] + (sent + d) + was[o + 4..];
  }

  /** Writes the options behind the TCP header at `th`, no further than the packet reaches, and
      returns their length in words. */
  method WriteOpts(pkt: array<Octet>, th: nat, mss: nat, opts: Opts, ece: bool, now: nat) returns (n: nat)
    requires th + TCP_HDR <= pkt.Length && mss < 0x1_0000 && opts.ts < TWO32 && now < TWO32
    modifies pkt
    ensures var o := th + TCP_HDR;
      var stamp := Bytes32(CookieTs(CookieBits(opts, ece), now)) + Bytes32(opts.ts);
      var reply := Reply(pkt.Length - o, Bytes16(mss), opts, stamp);
      4 * n == |reply| && o + 4 * n <= pkt.Length && pkt[..] == old(pkt[..o]) + reply + old(pkt[o + 4 * n..])
  {
    var cookie := CookieTs(CookieBits(opts, ece), now);
    ReplyWords(pkt.Length - (th + TCP_HDR), Bytes16(mss), opts, Bytes32(cookie) + Bytes32(opts.ts));
    n := WriteWords(pkt, th + TCP_HDR, Bytes16(mss), opts, Bytes32(cookie), Bytes32(opts.ts));
  }

  method WriteWords(pkt: array<Octet>, start: nat, m: seq<Octet>, opts: Opts, cookie: seq<Octet>, echo: seq<Octet>)
    returns (n: nat)
    requires start <= pkt.Length && |m| == 2 && |cookie| == 4 && |echo| == 4
    modifies pkt
    ensures var reply := FirstWords(pkt.Length - start, m) + LastWords(pkt.Length - start, opts, cookie + echo);
      4 * n == |reply| && start + 4 * n <= pkt.Length
      && pkt[..] == old(pkt[..start]) + reply + old(pkt[start + 4 * n..])
  {
    var o := start;
    ghost var was := pkt[..];
    if o + 4 > pkt.Length { return 0; }
    PutDword(pkt, start, o, [MSS, 4] + m, was, []);
    o := o + 4;
    if o + 4 > pkt.Length { return 1; }
    PutDword(pkt, start, o, [NOP, WSCALE, 3, DEFAULT_WSCALE], was, [] + ([MSS, 4] + m));
    o := o + 4;
    assert FirstWords(pkt.Length - start, m) == [] + ([MSS, 4] + m) + [NOP, WSCALE, 3, DEFAULT_WSCALE];
    n := WriteLastWords(pkt, start, opts, cookie, echo, was, FirstWords(pkt.Length - start, m));
  }

  method WriteLastWords(pkt: array<Octet>, start: nat, opts: Opts, cookie: seq<Octet>, echo: seq<Octet>,
                        ghost was: seq<Octet>, ghost sent: seq<Octet>) returns (n: nat)
    requires start + 8 <= pkt.Length == |was| && |sent| == 8 && |cookie| == 4 && |echo| == 4
    requires pkt[..] == was[..start] + sent + was[start + 8..]
    modifies pkt
    ensures var last := LastWords(pkt.Length - start, opts, cookie + echo);
      4 * n == 8 + |last| && start + 4 * n <= pkt.Length && pkt[..] == was[..start] + (sent + last) + was[start + 4 * n..]
  {
    var o := start + 8;
    assert sent + [] == sent;
    if o + 4 > pkt.Length { return 2; }
    if opts.ts == 0 || o + 12 > pkt.Length {
      if opts.sackPerm {
        PutDword(pkt, start, o, [SACK_PERM, 2, NOP, EOL], was, sent);
        return 3;
      }
      return 2;
    }
    var head := if opts.sackPerm then [SACK_PERM, 2, TIMESTAMP, 10] else [NOP, NOP, TIMESTAMP, 10];
    PutDword(pkt, start, o, head, was, sent);
    o := o + 4;
    PutDword(pkt, start, o, cookie, was, sent + head);
    o := o + 4;
    PutDword(pkt, start, o, echo, was, sent + head + cookie);
    assert sent + head + cookie + echo == sent + (head + (cookie + echo));
    return 5;
  }

  // ----- the reply word by word

  lemma {:induction false} EncodeAppend(a: seq<Item>, b: seq<Item>)
    ensures Encode(a + b) == Encode(a) + Encode(b)
    decreases |a|
  {
    if a == [] {
      assert a + b == b;
    } else {
      EncodeAppend(a[1..], b);
      TailOfAppend(a, b);
      Assoc(Bytes(a[0]), Encode(a[1..]), Encode(b));
    }
  }

  lemma TailOfAppend(a: seq<Item>, b: seq<Item>)
    requires a != []
    ensures a + b != [] && (a + b)[0] == a[0] && (a + b)[1..] == a[1..] + b
  {
  }

  lemma EncodePair(a: Item, b: Item)
    ensures Encode([a, b]) == Bytes(a) + Bytes(b) && Encode([a]) == Bytes(a)
  {
    EncodeFirst(b, []);
    EncodeFirst(a, [b]);
    EncodeFirst(a, []);
    assert [a] + [b] == [a, b] && [b] + [] == [b] && [a] + [] == [a];
  }

  function FirstWords(room: nat, m: seq<Octet>): seq<Octet> {
    if room < 4 then [] else if room < 8 then [MSS, 4] + m else [MSS, 4] + m + [NOP, WSCALE, 3, DEFAULT_WSCALE]
  }

  function LastWords(room: nat, opts: Opts, stamp: seq<Octet>): seq<Octet> {
    if room < 12 then []
    else if Stamped(room, opts) then
      (if opts.sackPerm then [SACK_PERM, 2, TIMESTAMP, 10] else [NOP, NOP, TIMESTAMP, 10]) + stamp
    else if opts.sackPerm then [SACK_PERM, 2, NOP, EOL] else []
  }

  lemma FirstEncoded(room: nat, m: seq<Octet>)
    requires |m| == 2
    ensures Encode(AdvertisedFirst(room, m)) == FirstWords(room, m)
  {
    EncodePair(Opt(MSS, m), Nop);
    EncodePair(Nop, Opt(WSCALE, [DEFAULT_WSCALE]));
    EncodeAppend([Opt(MSS, m)], [Nop, Opt(WSCALE, [DEFAULT_WSCALE])]);
  }

  lemma LastEncoded(room: nat, opts: Opts, stamp: seq<Octet>)
    requires |stamp| == 8
    ensures Encode(AdvertisedLast(room, opts, stamp)) + Pad(room, opts) == LastWords(room, opts, stamp)
  {
    var ts := Opt(TIMESTAMP, stamp);
    EncodePair(Nop, Nop);
    EncodePair(Opt(SACK_PERM, []), Nop);
    EncodePair(ts, Nop);
    EncodeAppend([Nop, Nop], [ts]);
    EncodeAppend([Opt(SACK_PERM, [])], [ts]);
  }

  lemma ReplyWords(room: nat, m: seq<Octet>, opts: Opts, stamp: seq<Octet>)
    requires |m| == 2 && |stamp| == 8
    ensures Reply(room, m, opts, stamp) == FirstWords(room, m) + LastWords(room, opts, stamp)
  {
    EncodeAppend(AdvertisedFirst(room, m), AdvertisedLast(room, opts, stamp));
    FirstEncoded(room, m);
    LastEncoded(room, opts, stamp);
  }

  // ----- writing, then reading

  lemma {:induction false} TakeAppend(o: Opts, a: seq<Item>, b: seq<Item>)
    requires AllSendable(a) && AllSendable(b)
    ensures AllSendable(a + b) && TakeAll(o, a + b) == TakeAll(TakeAll(o, a), b)
    decreases |a|
  {
    if a == [] {
      assert a + b == b;
    } else {
      TakeAppend(Take(o, a[0]), a[1..], b);
      assert (a + b)[1..] == a[1..] + b;
    }
  }

  lemma TakePair(o: Opts, a: Item, b: Item)
    requires Sendable(a) && Sendable(b)
    ensures TakeAll(o, [a]) == Take(o, a) && TakeAll(o, [a, b]) == Take(Take(o, a), b)
  {
    assert [a, b][1..] == [b] && TakeAll(Take(o, a), [b]) == Take(Take(o, a), b);
  }

  lemma FirstTaken(room: nat, m: seq<Octet>)
    requires |m| == 2
    ensures TakeAll(Opts(0, 0, false), AdvertisedFirst(room, m)) ==
            Opts(0, if room >= 8 then DEFAULT_WSCALE else 0, false)
  {
    var zero := Opts(0, 0, false);
    TakePair(zero, Opt(MSS, m), Nop);
    TakePair(zero, Nop, Opt(WSCALE, [DEFAULT_WSCALE]));
    TakeAppend(zero, [Opt(MSS, m)], [Nop, Opt(WSCALE, [DEFAULT_WSCALE])]);
  }

  lemma LastTaken(room: nat, opts: Opts, stamp: seq<Octet>, o: Opts)
    requires |stamp| == 8 && o.ts == 0 && !o.sackPerm
    ensures TakeAll(o, AdvertisedLast(room, opts, stamp)) ==
            Opts(if Stamped(room, opts) then Be32(stamp[..4]) else 0, o.wscale, room >= 12 && opts.sackPerm)
  {
    var ts := Opt(TIMESTAMP, stamp);
    TakePair(o, Nop, Nop);
    TakePair(o, Opt(SACK_PERM, []), Nop);
    TakePair(o, ts, Nop);
    TakePair(o.(sackPerm := true), ts, Nop);
    TakeAppend(o, [Nop, Nop], [ts]);
    TakeAppend(o, [Opt(SACK_PERM, [])], [ts]);
  }

  /** Parsing what was written succeeds and yields exactly what was advertised. */
  lemma ReplyParses(room: nat, m: seq<Octet>, opts: Opts, cookie: nat)
    requires |m| == 2 && opts.ts < TWO32 && cookie < TWO32
    ensures var stamp := Bytes32(cookie) + Bytes32(opts.ts);
      Scan(Reply(room, m, opts, stamp)) == Scanned(Advertised(room, m, opts, stamp), true)
      && Outcome(Opts(0, 0, false), Reply(room, m, opts, stamp)) ==
           (Opts(if Stamped(room, opts) then cookie else 0, if room >= 8 then DEFAULT_WSCALE else 0,
                 room >= 12 && opts.sackPerm), true)
  {
    var stamp := Bytes32(cookie) + Bytes32(opts.ts);
    ScanEncode(Advertised(room, m, opts, stamp), Pad(room, opts));
    var zero := Opts(0, 0, false);
    TakeAppend(zero, AdvertisedFirst(room, m), AdvertisedLast(room, opts, stamp));
    FirstTaken(room, m);
    LastTaken(room, opts, stamp, TakeAll(zero, AdvertisedFirst(room, m)));
    assert stamp[..4] == Bytes32(cookie);
  }

  /** The segment size a list of options announces, if its first option does. */
  function SegmentSize(items: seq<Item>): Option<nat> {
    if items != [] && IsOpt(items[0], MSS) && |items[0].body| == 2
    then Some(0x100 * (items[0].body[0] as nat) + items[0].body[1])
    else None
  }

  lemma SizeAdvertised(room: nat, mss: nat, opts: Opts, stamp: seq<Octet>)
    requires mss < 0x1_0000 && |stamp| == 8
    ensures SegmentSize(Advertised(room, Bytes16(mss), opts, stamp)) == if room >= 4 then Some(mss) else None
  {
  }

  lemma ReplyShort(room: nat, m: seq<Octet>, opts: Opts, stamp: seq<Octet>)
    requires |m| == 2 && |stamp| == 8
    ensures |Reply(room, m, opts, stamp)| <= 20
  {
    ReplyWords(room, m, opts, stamp);
  }

  lemma ReplyInPlace(was: seq<Octet>, reply: seq<Octet>, o: nat, pkt: seq<Octet>)
    requires o + |reply| <= |was| && pkt == was[..o] + reply + was[o + |reply|..]
    ensures |pkt| == |was| && pkt[o..o + |reply|] == reply
    ensures pkt[..o] == was[..o] && pkt[o + |reply|..] == was[o + |reply|..]
  {
  }

  /** The round trip through a packet: the parser, reading the header that the writer left with the data
      offset the SYN-ACK gets, finds exactly the options that were advertised. */
  method WriteAndParse(pkt: array<Octet>, th: nat, mss: nat, opts: Opts, ece: bool, now: nat)
    returns (n: nat, err: Errno, seen: Opts)
    requires th + TCP_HDR <= pkt.Length && mss < 0x1_0000 && opts.ts < TWO32 && now < TWO32
    modifies pkt
    ensures err == Ok && n <= 5 && th + TCP_HDR + 4 * n <= pkt.Length
    ensures var area := pkt[th + TCP_HDR..th + TCP_HDR + 4 * n];
      SegmentSize(Scan(area).items) == if pkt.Length - th - TCP_HDR >= 4 then Some(mss) else None
    ensures var room := pkt.Length - th - TCP_HDR;
      seen == Opts(if Stamped(room, opts) then CookieTs(CookieBits(opts, ece), now) else 0,
                   if room >= 8 then DEFAULT_WSCALE else 0, room >= 12 && opts.sackPerm)
  {
    ghost var was, cookie, room := pkt[..], CookieTs(CookieBits(opts, ece), now), pkt.Length - th - TCP_HDR;
    ghost var stamp := Bytes32(cookie) + Bytes32(opts.ts);
    ghost var reply := Reply(room, Bytes16(mss), opts, stamp);
    n := WriteOpts(pkt, th, mss, opts, ece, now);
    ReplyInPlace(was, reply, th + TCP_HDR, pkt[..]);
    ReplyShort(room, Bytes16(mss), opts, stamp);
    ReplyParses(room, Bytes16(mss), opts, cookie);
    SizeAdvertised(room, mss, opts, stamp);
    err, seen := ParseOpts(pkt[..], th, 5 + n, Opts(0, 0, false));
  }
}
