/** The SYN-ACK that answers a SYN in place: the octets of the frame from the TCP header on. */
module SynAck {
  import opened Basics
  import opened Checksum
  import opened TcpOptions

  // Octet indices of the TCP header.
  const SEQ: nat := 4
  const ACK_SEQ: nat := 8
  const OFFSET: nat := 12
  const FLAGS: nat := 13
  const WINDOW: nat := 14
  const TCP_CHECK: nat := 16

  /** How many 32-bit words of options the answer gets when `room` octets of the frame follow the header
      without options. */
  function OptionWords(room: nat, opts: Opts): nat {
    if room < 4 then 0 else if room < 8 then 1 else if room < 12 then 2
    else if Stamped(room, opts) then 5 else if opts.sackPerm then 3 else 2
  }

  lemma ReplyLength(room: nat, m: seq<Octet>, opts: Opts, stamp: seq<Octet>)
    requires |m| == 2 && |stamp| == 8
    ensures |Reply(room, m, opts, stamp)| == 4 * OptionWords(room, opts)
  {
    ReplyWords(room, m, opts, stamp);
  }

  function WithOffset(octet: Octet, doff: nat): (r: Octet)
    requires doff <= 15
    ensures r / 16 == doff && r % 16 == octet % 16
  {
    octet % 16 + doff * 16
  }

  predicate HasAck(flags: Octet) { flags / 16 % 2 == 1 }

  predicate HasEce(flags: Octet) { flags / 64 % 2 == 1 }

  function WithAck(flags: Octet): (r: Octet)
    ensures HasAck(r) && r % 16 == flags % 16 && r / 32 == flags / 32
  {
    if HasAck(flags) then flags else flags + 16
  }

  method WriteValue32(seg: array<Octet>, i: nat, v: nat)
    requires i + 4 <= seg.Length && v < TWO32
    modifies seg
    ensures Be32(seg[i..i + 4]) == v
    ensures forall k :: 0 <= k < seg.Length && !(i <= k < i + 4) ==> seg[k] == old(seg[k])
  {
    var b := Bytes32(v);
    seg[i], seg[i + 1], seg[i + 2], seg[i + 3] := b[0], b[1], b[2], b[3];
    assert seg[i..i + 4] == b;
  }

  lemma OctetPair(s: seq<Octet>)
    requires |s| >= 2 && |s| % 2 == 0
    ensures var n := |s| - 2; OctetSum(s) == OctetSum(s[..n]) + s[n] + 256 * (s[n + 1] as nat)
  {
    var n := |s| - 2;
    LastOctet(s);
    LastOctet(s[..n + 1]);
    assert s[..n + 1][..n] == s[..n];
    EvenThenOdd(n, s[n], s[n + 1]);
  }

  lemma LastOctet(s: seq<Octet>)
    requires s != []
    ensures OctetSum(s) == OctetSum(s[..|s| - 1]) + Weighed(|s| - 1, s[|s| - 1])
  {
  }

  lemma EvenThenOdd(n: nat, x: Octet, y: Octet)
    requires n % 2 == 0
    ensures Weighed(n, x) == x && Weighed(n + 1, y) == 256 * (y as nat)
  {
  }

  /** The kernel's 32-bit sum with end-around carry of the first `len` octets. */
  method CsumDiff(seg: array<Octet>, len: nat) returns (diff: nat)
    requires len % 2 == 0 && len <= seg.Length
    ensures diff < TWO32 && Congruent(diff, OctetSum(seg[..len]))
  {
    diff := 0;
    CongruentBy(0, 0, 0);
    var i := 0;
    while i < len
      invariant 0 <= i <= len && i % 2 == 0 && diff < TWO32 && Congruent(diff, OctetSum(seg[..i]))
    {
      OctetPair(seg[..i + 2]);
      assert seg[..i + 2][..i] == seg[..i];
      ghost var k := MovedBy(diff, OctetSum(seg[..i]));
      var low: nat, high: nat := seg[i], seg[i + 1];
      diff := diff + low + 256 * high;
      if diff >= TWO32 {
        diff := diff - TWO32 + 1;
        k := k - 65537;
      }
      CongruentBy(diff, OctetSum(seg[..i + 2]), k);
      i := i + 2;
    }
  }

  /** Offset, window, flags and sequence numbers of the answer; the checksum is zeroed. */
  method RewriteHeader(seg: array<Octet>, doff: nat, cookie: nat)
    requires seg.Length >= TCP_HDR && doff <= 15 && cookie < TWO32
    modifies seg
    ensures seg[TCP_CHECK] == seg[TCP_CHECK + 1] == 0 && seg[WINDOW] == seg[WINDOW + 1] == 255
    ensures seg[OFFSET] == WithOffset(old(seg[OFFSET]), doff) && seg[FLAGS] == WithAck(old(seg[FLAGS]))
    ensures Be32(seg[SEQ..SEQ + 4]) == cookie
    ensures Be32(seg[ACK_SEQ..ACK_SEQ + 4]) == (old(Be32(seg[SEQ..SEQ + 4])) + 1) % TWO32
    ensures forall k :: (0 <= k < SEQ || 18 <= k < seg.Length) ==> seg[k] == old(seg[k])
  {
    seg[OFFSET] := WithOffset(seg[OFFSET], doff);
    seg[WINDOW], seg[WINDOW + 1] := 255, 255;
    seg[TCP_CHECK], seg[TCP_CHECK + 1] := 0, 0;
    seg[FLAGS] := WithAck(seg[FLAGS]);
    assert seg[SEQ..SEQ + 4] == old(seg[SEQ..SEQ + 4]);
    WriteValue32(seg, ACK_SEQ, (Be32(seg[SEQ..SEQ + 4]) + 1) % TWO32);
    ghost var ack := seg[ACK_SEQ..ACK_SEQ + 4];
    WriteValue32(seg, SEQ, cookie);
    assert seg[ACK_SEQ..ACK_SEQ + 4] == ack;
  }

  /** Sums the header, swaps the ports and stores the checksum. */
  method StoreChecksum(seg: array<Octet>, ipv6: bool, addrs: seq<nat>, doff: nat)
    requires 5 <= doff <= 15 && doff * 4 <= seg.Length && seg[TCP_CHECK] == seg[TCP_CHECK + 1] == 0
    requires |addrs| == (if ipv6 then 8 else 2) && forall i :: 0 <= i < |addrs| ==> addrs[i] < TWO32
    modifies seg
    ensures HeaderChecks(addrs, doff, seg[..])
    ensures seg[..2] == old(seg[2..4]) && seg[2..4] == old(seg[..2])
    ensures forall k :: 4 <= k < seg.Length && k != TCP_CHECK && k != TCP_CHECK + 1 ==> seg[k] == old(seg[k])
  {
    ghost var was := seg[..doff * 4];
    var diff := CsumDiff(seg, doff * 4);
    seg[0], seg[1], seg[2], seg[3] := seg[2], seg[3], seg[0], seg[1];
    ghost var swapped: seq<Octet> := seg[..doff * 4];
    assert swapped == Swapped(was);
    SwappedSum(was);
    LengthsAgree(doff);
    var lengths := if ipv6 then Lengths6(doff) else Lengths4(doff);
    var check: nat := TcpCsumUpdate(addrs, lengths, diff);
    var low: Octet, high: Octet := check % 256, check / 256;
    seg[TCP_CHECK], seg[TCP_CHECK + 1] := low, high;
    assert seg[..][..doff * 4] == swapped[TCP_CHECK := low][TCP_CHECK + 1 := high];
    CheckSum(swapped, low, high);
    HeaderBalances(ipv6, addrs, doff, diff, check, OctetSum(was), OctetSum(seg[..][..doff * 4]));
  }

  function Swapped(s: seq<Octet>): seq<Octet>
    requires |s| >= 4
  {
    s[0 := s[2]][1 := s[3]][2 := s[0]][3 := s[1]]
  }

  lemma SwappedSum(s: seq<Octet>)
    requires |s| >= 4
    ensures OctetSum(Swapped(s)) == OctetSum(s)
  {
    OctetUpdate(s, 0, s[2]);
    OctetUpdate(s[0 := s[2]], 1, s[3]);
    OctetUpdate(s[0 := s[2]][1 := s[3]], 2, s[0]);
    OctetUpdate(s[0 := s[2]][1 := s[3]][2 := s[0]], 3, s[1]);
  }

  lemma CheckSum(s: seq<Octet>, low: Octet, high: Octet)
    requires |s| >= TCP_HDR && s[TCP_CHECK] == s[TCP_CHECK + 1] == 0
    ensures OctetSum(s[TCP_CHECK := low][TCP_CHECK + 1 := high]) == OctetSum(s) + low + 256 * (high as nat)
  {
    OctetUpdate(s, TCP_CHECK, low);
    OctetUpdate(s[TCP_CHECK := low], TCP_CHECK + 1, high);
  }

  lemma HeaderBalances(ipv6: bool, addrs: seq<nat>, doff: nat, diff: nat, check: nat, was: nat, header: nat)
    requires doff <= 15 && Congruent(diff, was) && header == was + check
    requires Congruent(check + diff + Sum(addrs) + if ipv6 then Lengths6(doff) else Lengths4(doff), 0)
    ensures Congruent(Sum(addrs) + Lengths4(doff) + header, 0)
  {
    PseudoHeader(ipv6, check + diff + Sum(addrs), doff);
    var k := MovedBy(check + diff + Sum(addrs) + Lengths4(doff), 0);
    var l := MovedBy(diff, was);
    CongruentBy(Sum(addrs) + Lengths4(doff) + header, 0, k - l);
  }

  /** Both address families add the same lengths. */
  lemma PseudoHeader(ipv6: bool, sent: nat, doff: nat)
    requires doff <= 15 && Congruent(sent + if ipv6 then Lengths6(doff) else Lengths4(doff), 0)
    ensures Congruent(sent + Lengths4(doff), 0)
  {
    LengthsAgree(doff);
    if ipv6 {
      CongruentSub(sent + Lengths6(doff), 0, Lengths6(doff), Lengths4(doff));
      var k := MovedBy(sent + Lengths6(doff) - Lengths6(doff), 0 - Lengths4(doff));
      CongruentBy(sent + Lengths4(doff), 0, k);
    }
  }

  /** The length field of the IP header after its segment's header went from `before` to `doff` words. */
  function NewLength(ipLen: nat, before: nat, doff: nat): nat { (ipLen + 4 * (doff - before)) % TWO16 }

  /** How many octets of data the IP header promises behind a TCP header of `before` words; negative if the
      header itself is cut short. */
  function DataLength(ipLen: nat, ipHdr: nat, before: nat): int { ipLen - ipHdr - 4 * before }

  /** The answer to a SYN, in a frame that has not been made longer, is accepted exactly when the data
      behind the new header is in the frame, and balances itself. */
  ghost predicate Answers(frame: seq<Octet>, doff: nat, extra: int) {
    0 <= extra && doff * 4 + extra <= |frame| && Balances(frame[doff * 4..doff * 4 + extra])
  }

  lemma AcceptedIff(addrs: seq<nat>, frame: seq<Octet>, ipHdr: nat, ipLen: nat, before: nat, doff: nat)
    requires 5 <= before <= 15 && 5 <= doff <= 15 && ipLen < TWO16 && ipHdr + |frame| + 40 < TWO16
    requires doff * 4 <= |frame| && HeaderLength(frame) == doff * 4 && HeaderChecks(addrs, doff, frame)
    ensures Accepts(addrs, NewLength(ipLen, before, doff) - ipHdr, frame) <==>
            Answers(frame, doff, DataLength(ipLen, ipHdr, before))
  {
    var extra, len := DataLength(ipLen, ipHdr, before), NewLength(ipLen, before, doff) - ipHdr;
    if 0 <= extra && doff * 4 + extra <= |frame| {
      assert len == doff * 4 + extra;
      SynAckChecksIff(addrs, doff, frame, extra);
    } else {
      assert !(doff * 4 <= len <= |frame|);
    }
  }

  /** An answer is accepted without data, refused with a single zero octet, and refused when a SYN without
      options or padding carried a word of data or more. */
  predicate Borders(was: seq<Octet>, before: nat, doff: nat, extra: int, accepted: bool) {
    && (extra == 0 ==> accepted)
    && (extra == 1 && doff * 4 < |was| && was[doff * 4] == 0 ==> !accepted)
    && (before == 5 && extra >= 4 && |was| == TCP_HDR + extra ==> !accepted)
  }

  /** A receiver accepts `frame`, the answer to `was`, exactly when it answers; in particular at the borders. */
  ghost predicate Decided(addrs: seq<nat>, len: int, was: seq<Octet>, frame: seq<Octet>, before: nat, doff: nat, extra: int) {
    && (Accepts(addrs, len, frame) <==> Answers(was, doff, extra))
    && Borders(was, before, doff, extra, Accepts(addrs, len, frame))
  }

  lemma AnswersAtBorders(was: seq<Octet>, before: nat, doff: nat, extra: int, opts: Opts)
    requires TCP_HDR <= |was| && doff == 5 + OptionWords(|was| - TCP_HDR, opts) && doff * 4 <= |was|
    ensures Borders(was, before, doff, extra, Answers(was, doff, extra))
  {
    BalancedByHand(0);
    if extra == 0 { assert was[doff * 4..doff * 4 + extra] == []; }
    if extra == 1 && doff * 4 < |was| { assert was[doff * 4..doff * 4 + extra] == [was[doff * 4]]; }
  }

  /** A SYN without options, ten octets of data and no padding: two words of options are written over the
      data, and the length then passes the end of the frame by eight octets. */
  lemma TenOctetsCut(addrs: seq<nat>, frame: seq<Octet>, ipHdr: nat, opts: Opts)
    requires |frame| == TCP_HDR + 10 && ipHdr + 38 < TWO16
    ensures OptionWords(10, opts) == 2 && NewLength(ipHdr + 30, 5, 7) - ipHdr == 38 && !Accepts(addrs, 38, frame)
  {
  }

  /** A 32-bit number in network order: the first octet weighs most. */
  function Number(a: Octet, b: Octet, c: Octet, d: Octet): nat {
    0x100_0000 * (a as nat) + 0x1_0000 * (b as nat) + 0x100 * (c as nat) + d
  }

  lemma NumberIsBe32(s: seq<Octet>, i: nat)
    requires i + 4 <= |s|
    ensures Number(s[i], s[i + 1], s[i + 2], s[i + 3]) == Be32(s[i..i + 4])
  {
  }

  /** The options of an answer octet by octet, as many as its frame has room for: segment size, window
      scale 7, SACK and timestamp; `stamp` and the client's timestamp in network order. */
  predicate Spelled(seg: seq<Octet>, mss: nat, opts: Opts, stamp: nat) {
    && (|seg| >= 24 ==> seg[20] == 2 && seg[21] == 4 && 0x100 * (seg[22] as nat) + seg[23] == mss)
    && (|seg| >= 28 ==> seg[24..28] == [1, 3, 3, 7])
    && (|seg| >= 40 && opts.ts != 0 ==>
          && seg[28..32] == (if opts.sackPerm then [4, 2, 8, 10] else [1, 1, 8, 10])
          && Number(seg[32], seg[33], seg[34], seg[35]) == stamp
          && Number(seg[36], seg[37], seg[38], seg[39]) == opts.ts)
    && (|seg| >= 32 && !(|seg| >= 40 && opts.ts != 0) && opts.sackPerm ==> seg[28..32] == [4, 2, 1, 0])
  }

  lemma OptionsSpelled(was: seq<Octet>, seg: seq<Octet>, mss: nat, opts: Opts, now: nat)
    requires |was| == |seg| >= TCP_HDR && mss < TWO16 && opts.ts < TWO32 && now < TWO32
    requires
      var n := OptionWords(|seg| - TCP_HDR, opts);
      TCP_HDR + 4 * n <= |seg| && seg[TCP_HDR..TCP_HDR + 4 * n] == Options(|seg|, mss, opts, was[FLAGS], now)
    ensures Spelled(seg, mss, opts, CookieTs(CookieBits(opts, HasEce(was[FLAGS])), now))
  {
    var stamp := CookieTs(CookieBits(opts, HasEce(was[FLAGS])), now);
    var n, room, b := OptionWords(|seg| - TCP_HDR, opts), |seg| - TCP_HDR, Bytes32(stamp) + Bytes32(opts.ts);
    ReplyWords(room, Bytes16(mss), opts, b);
    WordsSpelled(seg[TCP_HDR..TCP_HDR + 4 * n], room, Bytes16(mss), Bytes32(stamp), Bytes32(opts.ts), mss, opts, stamp);
    SpelledAt(seg, n, mss, opts, stamp);
  }

  /** The same for the option words alone. */
  predicate SpelledWords(area: seq<Octet>, room: nat, mss: nat, opts: Opts, stamp: nat) {
    && |area| == 4 * OptionWords(room, opts)
    && (room >= 4 ==> area[..2] == [2, 4] && 0x100 * (area[2] as nat) + area[3] == mss)
    && (room >= 8 ==> area[4..8] == [1, 3, 3, 7])
    && (room >= 20 && opts.ts != 0 ==>
          && area[8..12] == (if opts.sackPerm then [4, 2, 8, 10] else [1, 1, 8, 10])
          && Number(area[12], area[13], area[14], area[15]) == stamp
          && Number(area[16], area[17], area[18], area[19]) == opts.ts)
    && (room >= 12 && !(room >= 20 && opts.ts != 0) && opts.sackPerm ==> area[8..12] == [4, 2, 1, 0])
  }

  lemma WordsSpelled(area: seq<Octet>, room: nat, m: seq<Octet>, t: seq<Octet>, e: seq<Octet>,
                     mss: nat, opts: Opts, stamp: nat)
    requires |m| == 2 && 0x100 * (m[0] as nat) + m[1] == mss
    requires |t| == |e| == 4 && Be32(t) == stamp && Be32(e) == opts.ts
    requires area == FirstWords(room, m) + LastWords(room, opts, t + e)
    ensures SpelledWords(area, room, mss, opts, stamp)
  {
    if room >= 20 && opts.ts != 0 {
      assert area[12..16] == t && area[16..20] == e;
      NumberIsBe32(area, 12);
      NumberIsBe32(area, 16);
    }
  }

  lemma SpelledAt(seg: seq<Octet>, n: nat, mss: nat, opts: Opts, stamp: nat)
    requires |seg| >= TCP_HDR && n == OptionWords(|seg| - TCP_HDR, opts) && TCP_HDR + 4 * n <= |seg|
    requires SpelledWords(seg[TCP_HDR..TCP_HDR + 4 * n], |seg| - TCP_HDR, mss, opts, stamp)
    ensures Spelled(seg, mss, opts, stamp)
  {
    var area := seg[TCP_HDR..TCP_HDR + 4 * n];
    assert forall k :: 0 <= k < 4 * n ==> area[k] == seg[TCP_HDR + k];
    if |seg| >= 24 { assert area[..2][0] == seg[20] && area[..2][1] == seg[21]; }
    if |seg| >= 28 { assert area[4..8] == seg[24..28]; }
    if |seg| >= 32 && (opts.sackPerm || (|seg| >= 40 && opts.ts != 0)) { assert area[8..12] == seg[28..32]; }
  }

  /** Turns a SYN into its SYN-ACK: writes the options, rewrites the header, stores the checksum of the
      header, and adjusts the IP length. `addrs` are the 32-bit address words of IPv4 or IPv6, `ipHdr`
      the octets the length field `ipLen` counts in front of the TCP header. The frame keeps its length.

      A receiver accepts the answer exactly when the new options take no more than the old ones and the
      padding, and the data then found behind the header balances itself: always without data, never
      with a single zero octet, and never when a SYN without options or padding carried a word of data
      or more, over which the new options are written. */
  method MakeSynAck(seg: array<Octet>, ipv6: bool, addrs: seq<nat>, ipHdr: nat, ipLen: nat, cookie: nat,
                    mss: nat, opts: Opts, now: nat) returns (n: nat, newLen: nat)
    requires TCP_HDR <= seg.Length && TCP_HDR <= HeaderLength(seg[..]) <= seg.Length
    requires ipLen < TWO16 && ipHdr + seg.Length + 40 < TWO16
    requires |addrs| == (if ipv6 then 8 else 2) && forall i :: 0 <= i < |addrs| ==> addrs[i] < TWO32
    requires cookie < TWO32 && mss < TWO16 && opts.ts < TWO32 && now < TWO32
    modifies seg
    ensures n == OptionWords(seg.Length - TCP_HDR, opts) && TCP_HDR + 4 * n <= seg.Length
    ensures newLen == NewLength(ipLen, old(seg[OFFSET]) / 16, 5 + n)
    ensures seg[..2] == old(seg[2..4]) && seg[2..4] == old(seg[..2])
    ensures Number(seg[4], seg[5], seg[6], seg[7]) == cookie
    ensures Number(seg[8], seg[9], seg[10], seg[11]) == (old(Number(seg[4], seg[5], seg[6], seg[7])) + 1) % TWO32
    ensures HeaderLength(seg[..]) == 4 * (5 + n) && HasAck(seg[FLAGS]) && HeaderKept(old(seg[..]), seg[..])
    ensures Spelled(seg[..], mss, opts, CookieTs(CookieBits(opts, HasEce(old(seg[FLAGS]))), now))
    ensures seg[TCP_HDR + 4 * n..] == old(seg[TCP_HDR + 4 * n..])
    ensures Decided(addrs, newLen - ipHdr, old(seg[..]), seg[..], old(seg[OFFSET]) / 16, 5 + n,
                    DataLength(ipLen, ipHdr, old(seg[OFFSET]) / 16))
  {
    ghost var was := seg[..];
    var before := seg[OFFSET] / 16;
    n := RewriteSpelled(seg, ipv6, addrs, cookie, mss, opts, now);
    newLen := NewLength(ipLen, before, 5 + n);
    Decide(addrs, was, seg[..], ipHdr, ipLen, before, n, opts);
  }

  /** Options, header and checksum, with the octets spelled out. */
  method RewriteSpelled(seg: array<Octet>, ipv6: bool, addrs: seq<nat>, cookie: nat, mss: nat, opts: Opts, now: nat)
    returns (n: nat)
    requires TCP_HDR <= seg.Length
    requires |addrs| == (if ipv6 then 8 else 2) && forall i :: 0 <= i < |addrs| ==> addrs[i] < TWO32
    requires cookie < TWO32 && mss < TWO16 && opts.ts < TWO32 && now < TWO32
    modifies seg
    ensures n == OptionWords(seg.Length - TCP_HDR, opts) && TCP_HDR + 4 * n <= seg.Length
    ensures seg[..2] == old(seg[2..4]) && seg[2..4] == old(seg[..2])
    ensures Number(seg[4], seg[5], seg[6], seg[7]) == cookie
    ensures Number(seg[8], seg[9], seg[10], seg[11]) == (old(Number(seg[4], seg[5], seg[6], seg[7])) + 1) % TWO32
    ensures HeaderLength(seg[..]) == 4 * (5 + n) && HasAck(seg[FLAGS]) && HeaderKept(old(seg[..]), seg[..])
    ensures Spelled(seg[..], mss, opts, CookieTs(CookieBits(opts, HasEce(old(seg[FLAGS]))), now))
    ensures seg[TCP_HDR + 4 * n..] == old(seg[TCP_HDR + 4 * n..])
    ensures HeaderChecks(addrs, 5 + n, seg[..])
  {
    ghost var was := seg[..];
    n := Rewrite(seg, ipv6, addrs, cookie, mss, opts, now);
    OptionsSpelled(was, seg[..], mss, opts, now);
    NumberIsBe32(was, SEQ);
    NumberIsBe32(seg[..], SEQ);
    NumberIsBe32(seg[..], ACK_SEQ);
  }

  lemma Decide(addrs: seq<nat>, was: seq<Octet>, frame: seq<Octet>, ipHdr: nat, ipLen: nat, before: nat, n: nat, opts: Opts)
    requires |was| == |frame| >= TCP_HDR && n == OptionWords(|was| - TCP_HDR, opts) && TCP_HDR + 4 * n <= |frame|
    requires 5 <= before <= 15 && ipLen < TWO16 && ipHdr + |frame| + 40 < TWO16
    requires HeaderLength(frame) == 4 * (5 + n) && HeaderChecks(addrs, 5 + n, frame)
    requires frame[TCP_HDR + 4 * n..] == was[TCP_HDR + 4 * n..]
    ensures Decided(addrs, NewLength(ipLen, before, 5 + n) - ipHdr, was, frame, before, 5 + n,
                    DataLength(ipLen, ipHdr, before))
  {
    AcceptedIff(addrs, frame, ipHdr, ipLen, before, 5 + n);
    SameAnswer(was, frame, 5 + n, DataLength(ipLen, ipHdr, before));
    AnswersAtBorders(was, before, 5 + n, DataLength(ipLen, ipHdr, before), opts);
  }

  /** Options, header and checksum. */
  method Rewrite(seg: array<Octet>, ipv6: bool, addrs: seq<nat>, cookie: nat, mss: nat, opts: Opts, now: nat)
    returns (n: nat)
    requires TCP_HDR <= seg.Length
    requires |addrs| == (if ipv6 then 8 else 2) && forall i :: 0 <= i < |addrs| ==> addrs[i] < TWO32
    requires cookie < TWO32 && mss < TWO16 && opts.ts < TWO32 && now < TWO32
    modifies seg
    ensures n == OptionWords(seg.Length - TCP_HDR, opts) && TCP_HDR + 4 * n <= seg.Length
    ensures seg[..2] == old(seg[2..4]) && seg[2..4] == old(seg[..2])
    ensures Be32(seg[SEQ..SEQ + 4]) == cookie
    ensures Be32(seg[ACK_SEQ..ACK_SEQ + 4]) == (old(Be32(seg[SEQ..SEQ + 4])) + 1) % TWO32
    ensures HeaderLength(seg[..]) == 4 * (5 + n) && HasAck(seg[FLAGS]) && HeaderKept(old(seg[..]), seg[..])
    ensures seg[TCP_HDR..TCP_HDR + 4 * n] == Options(seg.Length, mss, opts, old(seg[FLAGS]), now)
    ensures seg[TCP_HDR + 4 * n..] == old(seg[TCP_HDR + 4 * n..])
    ensures HeaderChecks(addrs, 5 + n, seg[..])
  {
    ghost var was := seg[..];
    n := WriteOptions(seg, mss, opts, now);
    ghost var written := seg[..];
    Ahead(was, written);
    AnswerHeader(seg, ipv6, addrs, 5 + n, cookie);
    Behind(written, seg[..], 4 * n);
  }

  /** The other flags, the reserved bits and the urgent pointer are those of the SYN; the window is 65535. */
  predicate HeaderKept(was: seq<Octet>, seg: seq<Octet>)
    requires |was| == |seg| >= TCP_HDR
  {
    && seg[FLAGS] % 16 == was[FLAGS] % 16 && seg[FLAGS] / 32 == was[FLAGS] / 32 && seg[OFFSET] % 16 == was[OFFSET] % 16
    && seg[WINDOW] == seg[WINDOW + 1] == 255 && seg[18] == was[18] && seg[19] == was[19]
  }

  method AnswerHeader(seg: array<Octet>, ipv6: bool, addrs: seq<nat>, doff: nat, cookie: nat)
    requires 5 <= doff <= 15 && doff * 4 <= seg.Length && cookie < TWO32
    requires |addrs| == (if ipv6 then 8 else 2) && forall i :: 0 <= i < |addrs| ==> addrs[i] < TWO32
    modifies seg
    ensures seg[..2] == old(seg[2..4]) && seg[2..4] == old(seg[..2])
    ensures Be32(seg[SEQ..SEQ + 4]) == cookie
    ensures Be32(seg[ACK_SEQ..ACK_SEQ + 4]) == (old(Be32(seg[SEQ..SEQ + 4])) + 1) % TWO32
    ensures HeaderLength(seg[..]) == 4 * doff && HasAck(seg[FLAGS]) && HeaderKept(old(seg[..]), seg[..])
    ensures seg[TCP_HDR..] == old(seg[TCP_HDR..]) && HeaderChecks(addrs, doff, seg[..])
  {
    ghost var was := seg[..];
    RewriteHeader(seg, doff, cookie);
    ghost var rewritten := seg[..];
    assert rewritten[..2] == was[..2] && rewritten[2..4] == was[2..4] && rewritten[TCP_HDR..] == was[TCP_HDR..];
    StoreChecksum(seg, ipv6, addrs, doff);
    assert seg[SEQ..SEQ + 4] == rewritten[SEQ..SEQ + 4] && seg[ACK_SEQ..ACK_SEQ + 4] == rewritten[ACK_SEQ..ACK_SEQ + 4];
    assert seg[TCP_HDR..] == rewritten[TCP_HDR..];
  }

  lemma Ahead(a: seq<Octet>, b: seq<Octet>)
    requires |a| == |b| >= TCP_HDR && b[..TCP_HDR] == a[..TCP_HDR]
    ensures b[..2] == a[..2] && b[2..4] == a[2..4] && b[SEQ..SEQ + 4] == a[SEQ..SEQ + 4] && b[FLAGS] == a[FLAGS]
    ensures b[OFFSET] == a[OFFSET] && b[18] == a[18] && b[19] == a[19]
  {
    assert forall k :: 0 <= k < TCP_HDR ==> b[..TCP_HDR][k] == a[..TCP_HDR][k];
  }

  lemma Behind(a: seq<Octet>, b: seq<Octet>, len: nat)
    requires |a| == |b| && TCP_HDR + len <= |a| && b[TCP_HDR..] == a[TCP_HDR..]
    ensures b[TCP_HDR..TCP_HDR + len] == a[TCP_HDR..TCP_HDR + len] && b[TCP_HDR + len..] == a[TCP_HDR + len..]
  {
    assert forall s: seq<Octet> :: |s| == |a| ==>
      s[TCP_HDR..TCP_HDR + len] == s[TCP_HDR..][..len] && s[TCP_HDR + len..] == s[TCP_HDR..][len..];
  }

  /** The options of the answer in a segment of `size` octets. */
  function Options(size: nat, mss: nat, opts: Opts, flags: Octet, now: nat): seq<Octet>
    requires TCP_HDR <= size && mss < TWO16 && opts.ts < TWO32 && now < TWO32
  {
    Reply(size - TCP_HDR, Bytes16(mss), opts, Bytes32(CookieTs(CookieBits(opts, HasEce(flags)), now)) + Bytes32(opts.ts))
  }

  method WriteOptions(seg: array<Octet>, mss: nat, opts: Opts, now: nat) returns (n: nat)
    requires TCP_HDR <= seg.Length && mss < TWO16 && opts.ts < TWO32 && now < TWO32
    modifies seg
    ensures n == OptionWords(seg.Length - TCP_HDR, opts) && TCP_HDR + 4 * n <= seg.Length
    ensures seg[TCP_HDR..TCP_HDR + 4 * n] == Options(seg.Length, mss, opts, old(seg[FLAGS]), now)
    ensures seg[..TCP_HDR] == old(seg[..TCP_HDR]) && seg[TCP_HDR + 4 * n..] == old(seg[TCP_HDR + 4 * n..])
  {
    ghost var was, reply := seg[..], Options(seg.Length, mss, opts, seg[FLAGS], now);
    OptionsLength(seg.Length, mss, opts, seg[FLAGS], now);
    n := WriteOpts(seg, 0, mss, opts, HasEce(seg[FLAGS]), now);
    ReplyInPlace(was, reply, TCP_HDR, seg[..]);
  }

  lemma OptionsLength(size: nat, mss: nat, opts: Opts, flags: Octet, now: nat)
    requires TCP_HDR <= size && mss < TWO16 && opts.ts < TWO32 && now < TWO32
    ensures |Options(size, mss, opts, flags, now)| == 4 * OptionWords(size - TCP_HDR, opts)
  {
    ReplyLength(size - TCP_HDR, Bytes16(mss), opts, Bytes32(CookieTs(CookieBits(opts, HasEce(flags)), now)) + Bytes32(opts.ts));
  }

  /** Which octets lie behind the new header does not depend on the header. */
  lemma SameAnswer(was: seq<Octet>, frame: seq<Octet>, doff: nat, extra: int)
    requires |was| == |frame| && 5 <= doff && doff * 4 <= |frame| && frame[doff * 4..] == was[doff * 4..]
    ensures Answers(frame, doff, extra) <==> Answers(was, doff, extra)
  {
    if 0 <= extra && doff * 4 + extra <= |frame| {
      assert frame[doff * 4..doff * 4 + extra] == frame[doff * 4..][..extra];
      assert was[doff * 4..doff * 4 + extra] == was[doff * 4..][..extra];
    }
  }
}
