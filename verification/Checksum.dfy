/** One's-complement checksums of the SYN-ACK, over 16-bit words as they lie in memory.
    A checksum is right when all words, the checksum included, add up to 0 modulo 65535
    (RFC 1071; incremental update as in section 3 of RFC 1624). */
module Checksum {
  import opened Basics

  const M: nat := 65535

  const TCP: nat := 6
  const DEFAULT_TTL: nat := 64

  /** Byte swap of a 16-bit word: host to network order on a little-endian machine. */
  function Swap16(x: nat): (r: nat)
    requires x < TWO16
    ensures r < TWO16
  {
    x % 256 * 256 + x / 256
  }

  function Sum(ws: seq<nat>): nat {
    if ws == [] then 0 else Sum(ws[..|ws| - 1]) + ws[|ws| - 1]
  }

  function Times(k: int): int { M * k }

  /** Equal modulo 65535. */
  ghost predicate Congruent(a: int, b: int) {
    exists k :: a - b == Times(k)
  }

  lemma CongruentBy(a: int, b: int, k: int)
    requires a - b == M * k
    ensures Congruent(a, b)
  {
    assert a - b == Times(k);
  }

  /** How many times 65535 they differ. */
  lemma MovedBy(a: int, b: int) returns (k: int)
    requires Congruent(a, b)
    ensures a - b == M * k
  {
    k :| a - b == Times(k);
  }

  lemma SameRemainder(a: int, b: int)
    requires Congruent(a, b)
    ensures a % M == b % M
  {
    var k := MovedBy(a, b);
    assert a == M * (b / M + k) + b % M;
  }

  lemma CongruentAdd(a: int, b: int, c: int, d: int)
    requires Congruent(a, b) && Congruent(c, d)
    ensures Congruent(a + c, b + d)
  {
    var k := MovedBy(a, b);
    var l := MovedBy(c, d);
    CongruentBy(a + c, b + d, k + l);
  }

  lemma CongruentSub(a: int, b: int, c: int, d: int)
    requires Congruent(a, b) && Congruent(c, d)
    ensures Congruent(a - c, b - d)
  {
    var k := MovedBy(a, b);
    var l := MovedBy(c, d);
    CongruentBy(a - c, b - d, k - l);
  }

  lemma CongruentTransitive(a: int, b: int, c: int)
    requires Congruent(a, b) && Congruent(b, c)
    ensures Congruent(a, c)
  {
    CongruentAdd(a, b, b, c);
    var k := MovedBy(a + b, b + c);
    CongruentBy(a, c, k);
  }

  /** One conditional fold of the upper bits onto the lower sixteen. */
  function Fold(c: nat): nat {
    if c / TWO16 != 0 then c % TWO16 + c / TWO16 else c
  }

  lemma FoldCongruent(c: nat)
    ensures Congruent(Fold(c), c) && (Fold(c) == 0 <==> c == 0)
  {
    assert c == TWO16 * (c / TWO16) + c % TWO16;
    CongruentBy(Fold(c), c, if c / TWO16 != 0 then -(c / TWO16) else 0);
  }

  /** How large a sum can still be after `i` folds of a 64-bit value. */
  function Bound(i: nat): nat
    requires i <= 4
  {
    if i == 0 then TWO64 - 1
    else if i == 1 then 0x1_0000_0000_0000 + 65534
    else if i == 2 then 0x1_0000_0000 + 65534
    else if i == 3 then 131070
    else 65535
  }

  lemma FoldShrinks(c: nat, i: nat)
    requires i < 4 && c <= Bound(i)
    ensures Fold(c) <= Bound(i + 1)
  {
  }

  /** Folds a 64-bit sum to sixteen bits and complements it; four folds are always enough. */
  method CsumFold(csum64: nat) returns (r: nat)
    requires csum64 < TWO64
    ensures r <= M && Congruent(M - r, csum64)
    ensures r == M <==> csum64 == 0
  {
    var c: nat := csum64;
    CongruentBy(c, csum64, 0);
    for i := 0 to 4
      invariant 0 <= c <= Bound(i) && Congruent(c, csum64) && (c == 0 <==> csum64 == 0)
    {
      FoldShrinks(c, i);
      FoldCongruent(c);
      CongruentTransitive(Fold(c), c, csum64);
      if c / TWO16 != 0 {
        c := c % TWO16 + c / TWO16;
      }
    }
    r := M - c;
  }

  function CsumUnfold(check: nat): nat
    requires check < TWO16
  {
    M - check
  }

  /** Complement of a word widened to 32 bits. */
  function Not32(w: nat): nat
    requires w < TWO32
  {
    TWO32 - 1 - w
  }

  lemma Not32Congruent(w: nat)
    requires w < TWO32
    ensures Congruent(Not32(w), -(w as int))
  {
    CongruentBy(Not32(w), -(w as int), 65537);
  }

  /** Writing a word changes the total by the difference. */
  lemma {:induction false} SumUpdate(ws: seq<nat>, i: nat, w: nat)
    requires i < |ws|
    ensures Sum(ws[i := w]) == Sum(ws) - ws[i] + w
    decreases |ws|
  {
    var n := |ws| - 1;
    if i < n {
      SumUpdate(ws[..n], i, w);
      assert ws[i := w][..n] == ws[..n][i := w];
    } else {
      assert ws[i := w][..n] == ws[..n];
    }
  }

  lemma {:induction false} SumAppend(a: seq<nat>, b: seq<nat>)
    ensures Sum(a + b) == Sum(a) + Sum(b)
    decreases |b|
  {
    if b == [] {
      assert a + b == a;
    } else {
      var n := |b| - 1;
      SumAppend(a, b[..n]);
      assert (a + b)[..|a + b| - 1] == a + b[..n];
    }
  }

  // Word indices of the IPv4 header.
  const TOT_LEN: nat := 1
  const TTL_PROTO: nat := 4
  const CHECK: nat := 5
  const SADDR: nat := 6
  const DADDR: nat := 8

  predicate Words(ws: seq<nat>) {
    forall i :: 0 <= i < |ws| ==> ws[i] < TWO16
  }

  /** The word that holds a TTL and protocol TCP. */
  function TtlWord(ttl: nat): nat
    requires ttl < 256
  {
    Swap16(ttl * 256 + TCP)
  }

  lemma SwappedOctets(x: nat)
    requires x < TWO16
    ensures 256 * (Swap16(x) % 256) + Swap16(x) / 256 == x
  {
    assert x == 256 * (x / 256) + x % 256;
  }

  lemma DefaultTtlWord()
    ensures TtlWord(DEFAULT_TTL) % 256 == 64 && TtlWord(DEFAULT_TTL) / 256 == 6
  {
  }

  /** Sets TTL and length, updates the checksum for the change, swaps the addresses. The words hold their
      first octet in the low half. */
  method RewriteIpv4(h: array<nat>, len: nat)
    requires h.Length >= 10 && Words(h[..]) && len < TWO16 && h[TTL_PROTO] / 256 == 6
    modifies h
    ensures Words(h[..]) && Congruent(Sum(h[..]), old(Sum(h[..])))
    ensures h[TTL_PROTO] % 256 == 64 && h[TTL_PROTO] / 256 == 6
    ensures 256 * (h[TOT_LEN] % 256) + h[TOT_LEN] / 256 == len
    ensures h[SADDR..SADDR + 2] == old(h[DADDR..DADDR + 2]) && h[DADDR..DADDR + 2] == old(h[SADDR..SADDR + 2])
    ensures forall i :: 0 <= i < h.Length && i !in {TOT_LEN, TTL_PROTO, CHECK, 6, 7, 8, 9} ==> h[i] == old(h[i])
  {
    RewriteWords(h, len);
    SwappedOctets(len);
    DefaultTtlWord();
  }

  method RewriteWords(h: array<nat>, len: nat)
    requires h.Length >= 10 && Words(h[..]) && len < TWO16
    modifies h
    ensures Words(h[..]) && Congruent(Sum(h[..]), old(Sum(h[..])))
    ensures h[TTL_PROTO] == TtlWord(DEFAULT_TTL) && h[TOT_LEN] == Swap16(len)
    ensures h[SADDR..SADDR + 2] == old(h[DADDR..DADDR + 2]) && h[DADDR..DADDR + 2] == old(h[SADDR..SADDR + 2])
    ensures forall i :: 0 <= i < h.Length && i !in {TOT_LEN, TTL_PROTO, CHECK, 6, 7, 8, 9} ==> h[i] == old(h[i])
  {
    ghost var was := h[..];
    var oldTtl, oldLen := h[TTL_PROTO], h[TOT_LEN];
    var newTtl, newLen := TtlWord(DEFAULT_TTL), Swap16(len);
    var csum := CsumUnfold(h[CHECK]);
    csum := csum + Not32(oldTtl);
    csum := csum + newTtl;
    csum := csum + Not32(oldLen);
    csum := csum + newLen;
    var check := CsumFold(csum);
    UpdatedCheck(was[CHECK], oldTtl, newTtl, oldLen, newLen, csum, check);
    ghost var fixed := was[TTL_PROTO := newTtl][TOT_LEN := newLen][CHECK := check];
    SumUpdate(was, TTL_PROTO, newTtl);
    SumUpdate(was[TTL_PROTO := newTtl], TOT_LEN, newLen);
    SumUpdate(was[TTL_PROTO := newTtl][TOT_LEN := newLen], CHECK, check);
    h[TTL_PROTO] := newTtl;
    h[TOT_LEN] := newLen;
    h[CHECK] := check;
    assert h[..] == fixed;
    ghost var k := MovedBy(check + newTtl + newLen, was[CHECK] + oldTtl + oldLen);
    CongruentBy(Sum(fixed), Sum(was), k);
    SwapAddresses(h);
  }

  /** The new checksum balances the changed words. */
  lemma UpdatedCheck(was: nat, oldTtl: nat, newTtl: nat, oldLen: nat, newLen: nat, csum: nat, check: nat)
    requires was <= M && oldTtl < TWO16 && oldLen < TWO16 && check <= M
    requires csum == M - was + Not32(oldTtl) + newTtl + Not32(oldLen) + newLen
    requires Congruent(M - check, csum)
    ensures Congruent(check + newTtl + newLen, was + oldTtl + oldLen)
  {
    Not32Congruent(oldTtl);
    Not32Congruent(oldLen);
    CongruentAdd(Not32(oldTtl), -(oldTtl as int), Not32(oldLen), -(oldLen as int));
    CongruentBy(M - was + newTtl + newLen, newTtl + newLen - was, 1);
    CongruentAdd(Not32(oldTtl) + Not32(oldLen), -(oldTtl as int) - oldLen,
                 M - was + newTtl + newLen, newTtl + newLen - was);
    var target := newTtl + newLen - was - oldTtl - oldLen;
    CongruentTransitive(M - check, csum, target);
    CongruentBy(M, 0, 1);
    CongruentSub(M, 0, M - check, target);
    var k := MovedBy(M - (M - check), 0 - target);
    CongruentBy(check + newTtl + newLen, was + oldTtl + oldLen, k);
  }

  method SwapAddresses(h: array<nat>)
    requires h.Length >= 10
    modifies h
    ensures h[..] == old(h[..])[6 := old(h[8])][7 := old(h[9])][8 := old(h[6])][9 := old(h[7])]
    ensures Sum(h[..]) == old(Sum(h[..]))
  {
    ghost var was := h[..];
    SumUpdate(was, 6, was[8]);
    SumUpdate(was[6 := was[8]], 7, was[9]);
    SumUpdate(was[6 := was[8]][7 := was[9]], 8, was[6]);
    SumUpdate(was[6 := was[8]][7 := was[9]][8 := was[6]], 9, was[7]);
    h[6], h[7], h[8], h[9] := h[8], h[9], h[6], h[7];
    assert h[..] == was[6 := was[8]][7 := was[9]][8 := was[6]][9 := was[7]];
  }

  // ----- the TCP checksum

  /** One fold of the upper bits onto the lower thirty-two. */
  function Fold32(c: nat): nat { c % TWO32 + c / TWO32 }

  lemma Fold32Congruent(c: nat)
    ensures Congruent(Fold32(c), c)
  {
    var q := c / TWO32;
    assert c == TWO32 * q + c % TWO32;
    CongruentBy(Fold32(c), c, -65537 * q);
  }

  /** Adds the pseudo-header to the sum of the TCP header and folds: `addrs` are the 32-bit address
      words, `lengths` the protocol and length terms, `diff` the kernel's sum of the header. */
  method TcpCsumUpdate(addrs: seq<nat>, lengths: nat, diff: nat) returns (check: nat)
    requires |addrs| <= 8 && (forall i :: 0 <= i < |addrs| ==> addrs[i] < TWO32)
    requires lengths < TWO32 && diff < TWO32
    ensures check <= M && Congruent(check + diff + Sum(addrs) + lengths, 0)
  {
    var csum := diff;
    var i := 0;
    while i < |addrs|
      invariant 0 <= i <= |addrs|
      invariant csum == diff + Sum(addrs[..i]) && csum < (i + 1) * TWO32
    {
      assert addrs[..i + 1][..i] == addrs[..i];
      csum := csum + addrs[i];
      i := i + 1;
    }
    assert addrs[..i] == addrs;
    csum := csum + lengths;
    check := FoldTotal(csum);
  }

  /** Two folds to 32 bits, then to the checksum. */
  method FoldTotal(total: nat) returns (check: nat)
    requires total < 10 * TWO32
    ensures check <= M && Congruent(check + total, 0)
  {
    var csum := total;
    Fold32Congruent(csum);
    csum := csum % TWO32 + csum / TWO32;
    Fold32Congruent(csum);
    csum := csum % TWO32 + csum / TWO32;
    check := CsumFold(csum % TWO32);
    CongruentTransitive(csum, Fold32(total), total);
    CongruentTransitive(M - check, csum, total);
    ghost var k := MovedBy(M - check, total);
    CongruentBy(check + total, 0, 1 - k);
  }

  /** Protocol and header length as the IPv4 path adds them. */
  function Lengths4(doff: nat): nat { (TCP + doff * 4) * 256 }

  /** Protocol and header length as the IPv6 path adds them: two byte-swapped 32-bit values. */
  function Lengths6(doff: nat): nat { doff * 4 * 0x100_0000 + TCP * 0x100_0000 }

  lemma LengthsAgree(doff: nat)
    requires doff <= 15
    ensures Congruent(Lengths6(doff), Lengths4(doff)) && Lengths6(doff) < TWO32 && Lengths4(doff) < TWO16
  {
    CongruentBy(Lengths6(doff), Lengths4(doff), Lengths4(doff));
  }

  /** The sixteen-bit halves of 32-bit words, as a receiver adds them. */
  function Halves(xs: seq<nat>): seq<nat> {
    if xs == [] then []
    else Halves(xs[..|xs| - 1]) + [xs[|xs| - 1] % TWO16, xs[|xs| - 1] / TWO16]
  }

  lemma SumPair(a: nat, b: nat)
    ensures Sum([a]) == a && Sum([a, b]) == a + b
  {
    assert [a, b][..1] == [a] && [a][..0] == [];
  }

  /** Splitting words loses a multiple of 65535. */
  lemma {:induction false} HalvesSum(xs: seq<nat>) returns (k: nat)
    ensures Sum(Halves(xs)) + M * k == Sum(xs)
    decreases |xs|
  {
    if xs == [] {
      k := 0;
    } else {
      var n := |xs| - 1;
      k := HalvesSum(xs[..n]);
      SumAppend(Halves(xs[..n]), [xs[n] % TWO16, xs[n] / TWO16]);
      SumPair(xs[n] % TWO16, xs[n] / TWO16);
      k := k + xs[n] / TWO16;
    }
  }

  /** Swapping octets multiplies by 256, modulo 65535. */
  lemma Swap16Sum(x: nat) returns (k: nat)
    requires x < TWO16
    ensures Swap16(x) + M * k == 256 * x
  {
    k := x / 256;
  }

  // ----- octets

  /** An octet counts by where it lies in its sixteen-bit word; a last odd one is padded with zero. */
  function Weighed(i: nat, x: Octet): nat { if i % 2 == 0 then x else 256 * (x as nat) }

  function OctetSum(s: seq<Octet>): nat {
    if s == [] then 0 else OctetSum(s[..|s| - 1]) + Weighed(|s| - 1, s[|s| - 1])
  }

  lemma {:induction false} OctetUpdate(s: seq<Octet>, i: nat, x: Octet)
    requires i < |s|
    ensures OctetSum(s[i := x]) == OctetSum(s) - Weighed(i, s[i]) + Weighed(i, x)
    decreases |s|
  {
    var n := |s| - 1;
    if i < n {
      OctetUpdate(s[..n], i, x);
      assert s[i := x][..n] == s[..n][i := x];
    } else {
      assert s[i := x][..n] == s[..n];
    }
  }

  lemma {:induction false} OctetAppend(a: seq<Octet>, b: seq<Octet>)
    requires |a| % 2 == 0
    ensures OctetSum(a + b) == OctetSum(a) + OctetSum(b)
    decreases |b|
  {
    if b == [] {
      assert a + b == a;
    } else {
      var n := |b| - 1;
      OctetAppend(a, b[..n]);
      assert (a + b)[..|a + b| - 1] == a + b[..n];
      assert (|a| + n) % 2 == n % 2;
    }
  }

  /** What a receiver adds up: pseudo-header and the first `len` octets behind the IP header. */
  function ReceiverSum(addrs: seq<nat>, len: nat, frame: seq<Octet>): nat
    requires len < TWO16 && len <= |frame|
  {
    Sum(Halves(addrs)) + Swap16(TCP) + Swap16(len) + OctetSum(frame[..len])
  }

  /** The header length in the data offset field. */
  function HeaderLength(frame: seq<Octet>): nat
    requires |frame| >= 20
  {
    frame[12] / 16 * 4
  }

  /** A receiver accepts the segment between `addrs` whose length the IP header gives as `len` when all of
      it has arrived, its header lies within it, and everything adds up to 0 modulo 65535. What the
      frame holds beyond is padding. */
  ghost predicate Accepts(addrs: seq<nat>, len: int, frame: seq<Octet>) {
    && 20 <= len < TWO16 && len <= |frame| && 20 <= HeaderLength(frame) <= len
    && Congruent(ReceiverSum(addrs, len, frame), 0)
  }

  /** Octets whose length and content cancel out. */
  predicate Balances(data: seq<Octet>) {
    (256 * |data| + OctetSum(data)) % M == 0
  }

  lemma ZeroRemainder(sum: nat, rest: nat)
    requires Congruent(sum, rest)
    ensures Congruent(sum, 0) <==> rest % M == 0
  {
    SameRemainder(sum, rest);
    if Congruent(sum, 0) {
      SameRemainder(sum, 0);
    }
    if rest % M == 0 {
      CongruentBy(sum, 0, sum / M);
    }
  }

  /** Header and pseudo-header add up to 0: what the sender of a segment without data establishes. */
  ghost predicate HeaderChecks(addrs: seq<nat>, doff: nat, frame: seq<Octet>)
    requires doff * 4 <= |frame|
  {
    Congruent(Sum(addrs) + Lengths4(doff) + OctetSum(frame[..doff * 4]), 0)
  }

  /** A segment whose header checks on its own checks out as a whole exactly when the data that follows
      balances itself. */
  lemma SynAckChecksIff(addrs: seq<nat>, doff: nat, frame: seq<Octet>, extra: nat)
    requires doff <= 15 && doff * 4 + extra <= |frame| && doff * 4 + extra < TWO16
    requires HeaderChecks(addrs, doff, frame)
    ensures Congruent(ReceiverSum(addrs, doff * 4 + extra, frame), 0) <==>
            Balances(frame[doff * 4..doff * 4 + extra])
  {
    var header, data := frame[..doff * 4], frame[doff * 4..doff * 4 + extra];
    assert frame[..doff * 4 + extra] == header + data;
    OctetAppend(header, data);
    var k := MovedBy(Sum(addrs) + Lengths4(doff) + OctetSum(header), 0);
    var n := ReceiverSumIs(addrs, doff, OctetSum(header), OctetSum(data), extra, k);
    CongruentBy(ReceiverSum(addrs, doff * 4 + extra, frame), 256 * extra + OctetSum(data), n);
    ZeroRemainder(ReceiverSum(addrs, doff * 4 + extra, frame), 256 * extra + OctetSum(data));
  }

  lemma ReceiverSumIs(addrs: seq<nat>, doff: nat, header: nat, data: nat, extra: nat, k: int) returns (n: int)
    requires doff <= 15 && doff * 4 + extra < TWO16
    requires Sum(addrs) + Lengths4(doff) + header == M * k
    ensures Sum(Halves(addrs)) + Swap16(TCP) + Swap16(doff * 4 + extra) + (header + data) == 256 * extra + data + M * n
  {
    var i := HalvesSum(addrs);
    var j := Swap16Sum(doff * 4 + extra);
    n := k - i - j;
  }

  lemma BalancedByHand(x: Octet)
    ensures Balances([]) && (Balances([x]) <==> (256 + x) % M == 0)
  {
    assert [x][..0] == [];
  }
}
