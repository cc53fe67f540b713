/** The unrolled hash of a SYN's addresses, ports and sequence number, against XXH64 for any input. */
module XxHash {

  const PRIME1: bv64 := 0x9E3779B185EBCA87
  const PRIME2: bv64 := 0xC2B2AE3D27D4EB4F
  const PRIME3: bv64 := 0x165667B19E3779F9
  const PRIME4: bv64 := 0x85EBCA77C2B2AE63
  const PRIME5: bv64 := 0x27D4EB2F165667C5

  // ----- mixing steps

  datatype Accs = Accs(a: bv64, b: bv64, c: bv64, d: bv64)

  function Rotl(x: bv64, r: bv7): bv64
    requires r <= 64
  {
    (x << r) | (x >> (64 - r))
  }

  function Round(acc: bv64, input: bv64): bv64 {
    Rotl(acc + input * PRIME2, 31) * PRIME1
  }

  function MergeRound(acc: bv64, val: bv64): bv64 {
    (acc ^ Round(0, val)) * PRIME1 + PRIME4
  }

  function MergeAccs(s: Accs): bv64 {
    var h := Rotl(s.a, 1) + Rotl(s.b, 7) + Rotl(s.c, 12) + Rotl(s.d, 18);
    MergeRound(MergeRound(MergeRound(MergeRound(h, s.a), s.b), s.c), s.d)
  }

  function Update64(hash: bv64, input: bv64): bv64 {
    Rotl(hash ^ Round(0, input), 27) * PRIME1 + PRIME4
  }

  function Update32(hash: bv64, input: bv64): bv64 {
    Rotl(hash ^ (input * PRIME1), 23) * PRIME2 + PRIME3
  }

  function Update8(hash: bv64, input: bv64): bv64 {
    Rotl(hash ^ (input * PRIME5), 11) * PRIME1
  }

  function Avalanche(h: bv64): bv64 {
    var a := (h ^ (h >> 33)) * PRIME2;
    var b := (a ^ (a >> 29)) * PRIME3;
    b ^ (b >> 32)
  }

  function Load64(p: seq<bv8>): bv64 {
    if |p| != 8 then 0
    else (p[0] as bv64) | ((p[1] as bv64) << 8) | ((p[2] as bv64) << 16) | ((p[3] as bv64) << 24)
         | ((p[4] as bv64) << 32) | ((p[5] as bv64) << 40) | ((p[6] as bv64) << 48) | ((p[7] as bv64) << 56)
  }

  function Load32(p: seq<bv8>): bv64 {
    if |p| != 4 then 0
    else (p[0] as bv64) | ((p[1] as bv64) << 8) | ((p[2] as bv64) << 16) | ((p[3] as bv64) << 24)
  }

  /** The steps a hash is made of. Unrolling does not depend on what they compute, so what follows
      holds for every choice of them; XXH64 makes the one of `Xxh64Mixing`. */
  datatype Mixing = Mixing(load64: seq<bv8> -> bv64, load32: seq<bv8> -> bv64,
                           round: (bv64, bv64) -> bv64, merge: Accs -> bv64, update64: (bv64, bv64) -> bv64,
                           update32: (bv64, bv64) -> bv64, update8: (bv64, bv64) -> bv64, avalanche: bv64 -> bv64)

  function Xxh64Mixing(): Mixing {
    Mixing(Load64, Load32, Round, MergeAccs, Update64, Update32, Update8, Avalanche)
  }

  // ----- the hash of any input

  function InitAccs(seed: bv64): Accs {
    Accs(seed + PRIME1 + PRIME2, seed + PRIME2, seed, seed - PRIME1)
  }

  /** One stripe of 32 octets. */
  function Stripe(mix: Mixing, s: Accs, p: seq<bv8>): Accs
    requires |p| == 32
  {
    Accs(mix.round(s.a, mix.load64(p[..8])), mix.round(s.b, mix.load64(p[8..16])),
         mix.round(s.c, mix.load64(p[16..24])), mix.round(s.d, mix.load64(p[24..])))
  }

  function ConsumeLong(mix: Mixing, s: Accs, p: seq<bv8>): Accs
    decreases |p|
  {
    if |p| < 32 then s else ConsumeLong(mix, Stripe(mix, s, p[..32]), p[32..])
  }

  /** What is left of the last stripe, by eight, four and one octets. */
  function Finalize(mix: Mixing, h: bv64, p: seq<bv8>): bv64
    decreases |p|
  {
    if |p| >= 8 then Finalize(mix, mix.update64(h, mix.load64(p[..8])), p[8..])
    else if |p| >= 4 then Finalize(mix, mix.update32(h, mix.load32(p[..4])), p[4..])
    else if |p| >= 1 then Finalize(mix, mix.update8(h, p[0] as bv64), p[1..])
    else mix.avalanche(h)
  }

  /** What the whole stripes of the input leave behind. */
  function Absorbed(mix: Mixing, input: seq<bv8>, seed: bv64): bv64 {
    if |input| >= 32 then mix.merge(ConsumeLong(mix, InitAccs(seed), input)) else seed + PRIME5
  }

  /** The hash of `input`, whose length is `len`. */
  function Hash(mix: Mixing, input: seq<bv8>, len: bv64, seed: bv64): bv64 {
    Finalize(mix, Absorbed(mix, input, seed) + len, input[|input| / 32 * 32..])
  }

  // ----- tuples in memory, on a little-endian machine

  function Le16(x: bv16): seq<bv8> { [(x & 0xff) as bv8, (x >> 8) as bv8] }

  function Le32(x: bv32): seq<bv8> {
    [(x & 0xff) as bv8, ((x >> 8) & 0xff) as bv8, ((x >> 16) & 0xff) as bv8, (x >> 24) as bv8]
  }

  datatype Ipv4SynTuple = Ipv4SynTuple(srcIp: bv32, dstIp: bv32, seqno: bv32, sport: bv16, dport: bv16)

  datatype Ipv6SynTuple = Ipv6SynTuple(srcIp: seq<bv8>, dstIp: seq<bv8>, seqno: bv32, sport: bv16, dport: bv16)

  function PortsAndSeq(seqno: bv32, sport: bv16, dport: bv16): (b: seq<bv8>)
    ensures |b| == 8
  {
    Le32(seqno) + Le16(sport) + Le16(dport)
  }

  function Serialized4(t: Ipv4SynTuple): (b: seq<bv8>)
    ensures |b| == 16
  {
    (Le32(t.srcIp) + Le32(t.dstIp)) + PortsAndSeq(t.seqno, t.sport, t.dport)
  }

  function Serialized6(t: Ipv6SynTuple): (b: seq<bv8>)
    requires |t.srcIp| == 16 && |t.dstIp| == 16
    ensures |b| == 40
  {
    t.srcIp + t.dstIp + PortsAndSeq(t.seqno, t.sport, t.dport)
  }

  /** Where the fields of the tuples lie: addresses, sequence number, source port, destination port. */
  lemma Layout4(t: Ipv4SynTuple)
    ensures
      var b := Serialized4(t);
      b[..4] == Le32(t.srcIp) && b[4..8] == Le32(t.dstIp) && b[8..12] == Le32(t.seqno)
      && b[12..14] == Le16(t.sport) && b[14..] == Le16(t.dport)
  {
    LayoutTail(Le32(t.srcIp) + Le32(t.dstIp), t.seqno, t.sport, t.dport);
    var b, a := Serialized4(t), Le32(t.srcIp) + Le32(t.dstIp);
    assert b == a + PortsAndSeq(t.seqno, t.sport, t.dport);
    assert b[..4] == a[..4] == Le32(t.srcIp) && b[4..8] == a[4..] == Le32(t.dstIp);
  }

  lemma Layout6(t: Ipv6SynTuple)
    requires |t.srcIp| == |t.dstIp| == 16
    ensures
      var b := Serialized6(t);
      b[..16] == t.srcIp && b[16..32] == t.dstIp && b[32..36] == Le32(t.seqno)
      && b[36..38] == Le16(t.sport) && b[38..] == Le16(t.dport)
  {
    LayoutTail(t.srcIp + t.dstIp, t.seqno, t.sport, t.dport);
    var b, a := Serialized6(t), t.srcIp + t.dstIp;
    assert b == a + PortsAndSeq(t.seqno, t.sport, t.dport);
    assert b[..16] == a[..16] == t.srcIp && b[16..32] == a[16..] == t.dstIp;
  }

  lemma LayoutTail(a: seq<bv8>, seqno: bv32, sport: bv16, dport: bv16)
    ensures
      var b, n := a + PortsAndSeq(seqno, sport, dport), |a|;
      b[n..n + 4] == Le32(seqno) && b[n + 4..n + 6] == Le16(sport) && b[n + 6..] == Le16(dport)
  {
    var q, s, d := Le32(seqno), Le16(sport), Le16(dport);
    var b := a + PortsAndSeq(seqno, sport, dport);
    assert b == a + q + s + d;
    assert b[|a|..|a| + 4] == q && b[|a| + 4..|a| + 6] == s && b[|a| + 6..] == d;
  }

  // ----- the unrolled forms

  function SynPortsSeq(sport: bv16, dport: bv16, seqno: bv32): bv64 {
    (seqno as bv64) | ((sport as bv64) << 32) | ((dport as bv64) << 48)
  }

  function SynAddrs(srcIp: bv32, dstIp: bv32): bv64 {
    (srcIp as bv64) | ((dstIp as bv64) << 32)
  }

  /** Packing a block by shifts is loading it from memory. */
  ghost predicate Packs(mix: Mixing) {
    && (forall a, b :: mix.load64(Le32(a) + Le32(b)) == SynAddrs(a, b))
    && (forall q, s, d :: mix.load64(PortsAndSeq(q, s, d)) == SynPortsSeq(s, d, q))
  }

  lemma Xxh64Packs()
    ensures Packs(Xxh64Mixing())
  {
    forall a, b ensures Load64(Le32(a) + Le32(b)) == SynAddrs(a, b) {
      LoadWords(a, b);
    }
    forall q, s, d ensures Load64(PortsAndSeq(q, s, d)) == SynPortsSeq(s, d, q) {
      LoadPorts(s, d, q);
    }
  }

  lemma LoadWords(a: bv32, b: bv32)
    ensures Load64(Le32(a) + Le32(b)) == SynAddrs(a, b)
  {
  }

  lemma LoadPorts(sport: bv16, dport: bv16, seqno: bv32)
    ensures Load64(PortsAndSeq(seqno, sport, dport)) == SynPortsSeq(sport, dport, seqno)
  {
  }

  /** Sixteen octets in two blocks. */
  lemma HashTwo(mix: Mixing, p: seq<bv8>, q: seq<bv8>, seed: bv64)
    requires |p| == |q| == 8
    ensures Hash(mix, p + q, 16, seed)
            == mix.avalanche(mix.update64(mix.update64(seed + PRIME5 + 16, mix.load64(p)), mix.load64(q)))
  {
    var input := p + q;
    assert input[|input| / 32 * 32..] == input && input[..8] == p && input[8..] == q;
    FinalizeOne(mix, mix.update64(seed + PRIME5 + 16, mix.load64(p)), q);
  }

  lemma FinalizeOne(mix: Mixing, h: bv64, p: seq<bv8>)
    requires |p| == 8
    ensures Finalize(mix, h, p) == mix.avalanche(mix.update64(h, mix.load64(p)))
  {
    assert p[..8] == p && p[8..] == [];
  }

  method SynXxh64Ipv4(mix: Mixing, t: Ipv4SynTuple, seed: bv64) returns (hash: bv64)
    requires Packs(mix)
    ensures hash == Hash(mix, Serialized4(t), 16, seed)
  {
    hash := seed + PRIME5 + 16;
    var block := SynAddrs(t.srcIp, t.dstIp);
    hash := mix.update64(hash, block);
    block := SynPortsSeq(t.sport, t.dport, t.seqno);
    hash := mix.update64(hash, block);
    hash := mix.avalanche(hash);
    HashTwo(mix, Le32(t.srcIp) + Le32(t.dstIp), PortsAndSeq(t.seqno, t.sport, t.dport), seed);
  }

  /** The accumulators behind one stripe of two addresses. */
  function AddrStripe(mix: Mixing, s: Accs, src: seq<bv8>, dst: seq<bv8>): Accs
    requires |src| == |dst| == 16
  {
    Accs(mix.round(s.a, mix.load64(src[..8])), mix.round(s.b, mix.load64(src[8..])),
         mix.round(s.c, mix.load64(dst[..8])), mix.round(s.d, mix.load64(dst[8..])))
  }

  lemma {:induction false} OneStripe(mix: Mixing, s: Accs, src: seq<bv8>, dst: seq<bv8>, rest: seq<bv8>)
    requires |src| == |dst| == 16 && |rest| < 32
    ensures ConsumeLong(mix, s, src + dst + rest) == AddrStripe(mix, s, src, dst)
  {
    var p, input := src + dst, src + dst + rest;
    assert input[..32] == p && input[32..] == rest;
    assert p[..8] == src[..8] && p[8..16] == src[8..] && p[16..24] == dst[..8] && p[24..] == dst[8..];
    assert ConsumeLong(mix, Stripe(mix, s, p), rest) == Stripe(mix, s, p);
  }

  /** One stripe and less than another. */
  lemma {:induction false} LongInput(mix: Mixing, src: seq<bv8>, dst: seq<bv8>, rest: seq<bv8>, seed: bv64)
    requires |src| == |dst| == 16 && |rest| < 32
    ensures
      var input := src + dst + rest;
      Absorbed(mix, input, seed) == mix.merge(AddrStripe(mix, InitAccs(seed), src, dst))
      && input[|input| / 32 * 32..] == rest
  {
    var input := src + dst + rest;
    assert |input| / 32 == 1;
    assert input[32..] == rest;
    OneStripe(mix, InitAccs(seed), src, dst, rest);
  }

  /** Forty octets: one stripe, then one block. */
  lemma HashStripe(mix: Mixing, src: seq<bv8>, dst: seq<bv8>, q: seq<bv8>, seed: bv64)
    requires |src| == |dst| == 16 && |q| == 8
    ensures Hash(mix, src + dst + q, 40, seed)
            == mix.avalanche(mix.update64(mix.merge(AddrStripe(mix, InitAccs(seed), src, dst)) + 40, mix.load64(q)))
  {
    LongInput(mix, src, dst, q, seed);
    FinalizeOne(mix, mix.merge(AddrStripe(mix, InitAccs(seed), src, dst)) + 40, q);
  }

  method InitAccsInPlace(acc: array<bv64>, seed: bv64)
    requires acc.Length == 4
    modifies acc
    ensures Accs(acc[0], acc[1], acc[2], acc[3]) == InitAccs(seed)
  {
    acc[0] := seed + PRIME1 + PRIME2;
    acc[1] := seed + PRIME2;
    acc[2] := seed;
    acc[3] := seed - PRIME1;
  }

  method SynXxh64Ipv6(mix: Mixing, t: Ipv6SynTuple, seed: bv64) returns (hash: bv64)
    requires Packs(mix) && |t.srcIp| == 16 && |t.dstIp| == 16
    ensures hash == Hash(mix, Serialized6(t), 40, seed)
  {
    var acc := new bv64[4];
    InitAccsInPlace(acc, seed);
    ghost var s := InitAccs(seed);
    acc[0] := mix.round(acc[0], mix.load64(t.srcIp[..8]));
    acc[1] := mix.round(acc[1], mix.load64(t.srcIp[8..]));
    acc[2] := mix.round(acc[2], mix.load64(t.dstIp[..8]));
    acc[3] := mix.round(acc[3], mix.load64(t.dstIp[8..]));
    hash := mix.merge(Accs(acc[0], acc[1], acc[2], acc[3]));
    hash := hash + 40;
    hash := mix.update64(hash, SynPortsSeq(t.sport, t.dport, t.seqno));
    hash := mix.avalanche(hash);
    HashStripe(mix, t.srcIp, t.dstIp, PortsAndSeq(t.seqno, t.sport, t.dport), seed);
  }

  /** With the mixing steps of XXH64. */
  method SynHashIpv4(t: Ipv4SynTuple, seed: bv64) returns (hash: bv64)
    ensures hash == Hash(Xxh64Mixing(), Serialized4(t), 16, seed)
  {
    Xxh64Packs();
    hash := SynXxh64Ipv4(Xxh64Mixing(), t, seed);
  }

  method SynHashIpv6(t: Ipv6SynTuple, seed: bv64) returns (hash: bv64)
    requires |t.srcIp| == 16 && |t.dstIp| == 16
    ensures hash == Hash(Xxh64Mixing(), Serialized6(t), 40, seed)
  {
    Xxh64Packs();
    hash := SynXxh64Ipv6(Xxh64Mixing(), t, seed);
  }

  // ----- what the mixing steps compute

  predicate Bit(x: bv64, i: bv7)
    requires i < 64
  {
    (x >> i) & 1 == 1
  }

  /** Rotating moves bit `i` to bit `i + r`, around the end; by each amount the hash uses. */
  lemma RotlMoves(x: bv64, i: bv7)
    requires i < 64
    ensures Bit(Rotl(x, 1), (i + 1) % 64) == Bit(x, i)
    ensures Bit(Rotl(x, 7), (i + 7) % 64) == Bit(x, i)
    ensures Bit(Rotl(x, 11), (i + 11) % 64) == Bit(x, i)
    ensures Bit(Rotl(x, 12), (i + 12) % 64) == Bit(x, i)
    ensures Bit(Rotl(x, 18), (i + 18) % 64) == Bit(x, i)
    ensures Bit(Rotl(x, 23), (i + 23) % 64) == Bit(x, i)
    ensures Bit(Rotl(x, 27), (i + 27) % 64) == Bit(x, i)
    ensures Bit(Rotl(x, 31), (i + 31) % 64) == Bit(x, i)
  {
    RotlBy1(x, i);
    RotlBy7(x, i);
    RotlBy11(x, i);
    RotlBy12(x, i);
    RotlBy18(x, i);
    RotlBy23(x, i);
    RotlBy27(x, i);
    RotlBy31(x, i);
  }

  lemma RotlBy1(x: bv64, i: bv7)
    requires i < 64
    ensures Bit(Rotl(x, 1), (i + 1) % 64) == Bit(x, i)
  {
  }

  lemma RotlBy7(x: bv64, i: bv7)
    requires i < 64
    ensures Bit(Rotl(x, 7), (i + 7) % 64) == Bit(x, i)
  {
  }

  lemma RotlBy11(x: bv64, i: bv7)
    requires i < 64
    ensures Bit(Rotl(x, 11), (i + 11) % 64) == Bit(x, i)
  {
  }

  lemma RotlBy12(x: bv64, i: bv7)
    requires i < 64
    ensures Bit(Rotl(x, 12), (i + 12) % 64) == Bit(x, i)
  {
  }

  lemma RotlBy18(x: bv64, i: bv7)
    requires i < 64
    ensures Bit(Rotl(x, 18), (i + 18) % 64) == Bit(x, i)
  {
  }

  lemma RotlBy23(x: bv64, i: bv7)
    requires i < 64
    ensures Bit(Rotl(x, 23), (i + 23) % 64) == Bit(x, i)
  {
  }

  lemma RotlBy27(x: bv64, i: bv7)
    requires i < 64
    ensures Bit(Rotl(x, 27), (i + 27) % 64) == Bit(x, i)
  {
  }

  lemma RotlBy31(x: bv64, i: bv7)
    requires i < 64
    ensures Bit(Rotl(x, 31), (i + 31) % 64) == Bit(x, i)
  {
  }

  lemma Finalize8(h: bv64, p: seq<bv8>, rest: seq<bv8>)
    requires |p| == 8
    ensures Finalize(Xxh64Mixing(), h, p + rest) == Finalize(Xxh64Mixing(), Update64(h, Load64(p)), rest)
  {
    assert (p + rest)[..8] == p && (p + rest)[8..] == rest;
  }

  lemma Finalize4(h: bv64, p: seq<bv8>, rest: seq<bv8>)
    requires |p| == 4 && |rest| < 4
    ensures Finalize(Xxh64Mixing(), h, p + rest) == Finalize(Xxh64Mixing(), Update32(h, Load32(p)), rest)
  {
    assert (p + rest)[..4] == p && (p + rest)[4..] == rest;
  }

  lemma Finalize1(h: bv64, x: bv8, rest: seq<bv8>)
    requires |rest| < 3
    ensures Finalize(Xxh64Mixing(), h, [x] + rest) == Finalize(Xxh64Mixing(), Update8(h, x as bv64), rest)
  {
    assert ([x] + rest)[1..] == rest;
  }

  lemma Finalize0(h: bv64)
    ensures Finalize(Xxh64Mixing(), h, []) == Avalanche(h)
  {
  }

  /** The published hash of the empty input with seed 0. */
  lemma EmptyVector()
    ensures Hash(Xxh64Mixing(), [], 0, 0) == 0xef46db3751d8e999
  {
    var none: seq<bv8> := [];
    assert none[|none| / 32 * 32..] == none;
    Finalize0(PRIME5);
  }

  /** The published hash of the alphabet in lower case with seed 0. */
  lemma AlphabetVector()
    ensures
      Hash(Xxh64Mixing(),
           [0x61, 0x62, 0x63, 0x64, 0x65, 0x66, 0x67, 0x68]
           + ([0x69, 0x6a, 0x6b, 0x6c, 0x6d, 0x6e, 0x6f, 0x70]
              + ([0x71, 0x72, 0x73, 0x74, 0x75, 0x76, 0x77, 0x78] + ([0x79] + ([0x7a] + [])))), 26, 0) == 0xcfe1f278fa89835c
  {
    var p: seq<bv8>, q: seq<bv8>, r: seq<bv8>, t: seq<bv8> :=
      [0x61, 0x62, 0x63, 0x64, 0x65, 0x66, 0x67, 0x68], [0x69, 0x6a, 0x6b, 0x6c, 0x6d, 0x6e, 0x6f, 0x70],
      [0x71, 0x72, 0x73, 0x74, 0x75, 0x76, 0x77, 0x78], [0x79] + ([0x7a] + []);
    var input := p + (q + (r + t));
    assert input[|input| / 32 * 32..] == input;
    AlphabetSteps();
    Finalize8(0x27d4eb2f165667df, p, q + (r + t));
    Finalize8(0xf6826f82065ad1df, q, r + t);
    Finalize8(0x3aff6c85b70cb9f6, r, t);
    Finalize1(0x42586f3d9dd13a98, 0x79, [0x7a] + []);
    Finalize1(0x997728e493715569, 0x7a, []);
    Finalize0(0xf20adf76fa26a570);
  }

  lemma AlphabetSteps()
    ensures 0 + PRIME5 + 26 == 0x27d4eb2f165667df
    ensures Update64(0x27d4eb2f165667df, Load64([0x61, 0x62, 0x63, 0x64, 0x65, 0x66, 0x67, 0x68])) == 0xf6826f82065ad1df
    ensures Update64(0xf6826f82065ad1df, Load64([0x69, 0x6a, 0x6b, 0x6c, 0x6d, 0x6e, 0x6f, 0x70])) == 0x3aff6c85b70cb9f6
    ensures Update64(0x3aff6c85b70cb9f6, Load64([0x71, 0x72, 0x73, 0x74, 0x75, 0x76, 0x77, 0x78])) == 0x42586f3d9dd13a98
    ensures Update8(0x42586f3d9dd13a98, 0x79) == 0x997728e493715569 && Update8(0x997728e493715569, 0x7a) == 0xf20adf76fa26a570
    ensures Avalanche(0xf20adf76fa26a570) == 0xcfe1f278fa89835c
  {
  }

  /** The published hash of the 39 octets "Nobody inspects the spammish repetition" with seed 0: one stripe and
      an odd rest. */
  lemma StripeVector()
    ensures
      Hash(Xxh64Mixing(),
           ([0x4e, 0x6f, 0x62, 0x6f, 0x64, 0x79, 0x20, 0x69, 0x6e, 0x73, 0x70, 0x65, 0x63, 0x74, 0x73, 0x20]
            + [0x74, 0x68, 0x65, 0x20, 0x73, 0x70, 0x61, 0x6d, 0x6d, 0x69, 0x73, 0x68, 0x20, 0x72, 0x65, 0x70])
           + ([0x65, 0x74, 0x69, 0x74] + ([0x69] + ([0x6f] + ([0x6e] + [])))), 39, 0) == 0xfbcea83c8a378bf1
  {
    var p: seq<bv8>, q: seq<bv8> :=
      [0x4e, 0x6f, 0x62, 0x6f, 0x64, 0x79, 0x20, 0x69, 0x6e, 0x73, 0x70, 0x65, 0x63, 0x74, 0x73, 0x20],
      [0x74, 0x68, 0x65, 0x20, 0x73, 0x70, 0x61, 0x6d, 0x6d, 0x69, 0x73, 0x68, 0x20, 0x72, 0x65, 0x70];
    var w: seq<bv8>, t: seq<bv8> := [0x65, 0x74, 0x69, 0x74], [0x69] + ([0x6f] + ([0x6e] + []));
    LongInput(Xxh64Mixing(), p, q, w + t, 0);
    StripeSteps();
    StripeHalves();
    StripeRest();
  }

  lemma StripeHalves()
    ensures
      var p: seq<bv8> := [0x4e, 0x6f, 0x62, 0x6f, 0x64, 0x79, 0x20, 0x69, 0x6e, 0x73, 0x70, 0x65, 0x63, 0x74, 0x73, 0x20];
      p[..8] == [0x4e, 0x6f, 0x62, 0x6f, 0x64, 0x79, 0x20, 0x69] && p[8..] == [0x6e, 0x73, 0x70, 0x65, 0x63, 0x74, 0x73, 0x20]
    ensures
      var q: seq<bv8> := [0x74, 0x68, 0x65, 0x20, 0x73, 0x70, 0x61, 0x6d, 0x6d, 0x69, 0x73, 0x68, 0x20, 0x72, 0x65, 0x70];
      q[..8] == [0x74, 0x68, 0x65, 0x20, 0x73, 0x70, 0x61, 0x6d] && q[8..] == [0x6d, 0x69, 0x73, 0x68, 0x20, 0x72, 0x65, 0x70]
  {
  }

  lemma StripeRest()
    ensures Finalize(Xxh64Mixing(), 0x84f22c421a11a8dc, [0x65, 0x74, 0x69, 0x74] + ([0x69] + ([0x6f] + ([0x6e] + [])))) == 0xfbcea83c8a378bf1
  {
    var w: seq<bv8>, t: seq<bv8> := [0x65, 0x74, 0x69, 0x74], [0x69] + ([0x6f] + ([0x6e] + []));
    StripeSteps();
    Finalize4(0x84f22c421a11a8dc, w, t);
    Finalize1(0x9fca0f5d0aaa110f, 0x69, [0x6f] + ([0x6e] + []));
    Finalize1(0x769671546f21ba14, 0x6f, [0x6e] + []);
    Finalize1(0xeae9b643c5f94e52, 0x6e, []);
    Finalize0(0x1d0a47483b37cc24);
  }

  lemma StripeSteps()
    ensures InitAccs(0) == Accs(0x60ea27eeadc0b5d6, 0xc2b2ae3d27d4eb4f, 0x0000000000000000, 0x61c8864e7a143579)
    ensures Load64([0x4e, 0x6f, 0x62, 0x6f, 0x64, 0x79, 0x20, 0x69]) == 0x692079646f626f4e && Round(0x60ea27eeadc0b5d6, 0x692079646f626f4e) == 0x37245127a4067e4b
    ensures Load64([0x6e, 0x73, 0x70, 0x65, 0x63, 0x74, 0x73, 0x20]) == 0x207374636570736e && Round(0xc2b2ae3d27d4eb4f, 0x207374636570736e) == 0x1b302b0a818f92cf
    ensures Load64([0x74, 0x68, 0x65, 0x20, 0x73, 0x70, 0x61, 0x6d]) == 0x6d61707320656874 && Round(0x0000000000000000, 0x6d61707320656874) == 0xcd62d843d0580fca
    ensures Load64([0x6d, 0x69, 0x73, 0x68, 0x20, 0x72, 0x65, 0x70]) == 0x706572206873696d && Round(0x61c8864e7a143579, 0x706572206873696d) == 0x1c16e43ef2142a4a
    ensures MergeAccs(Accs(0x37245127a4067e4b, 0x1b302b0a818f92cf, 0xcd62d843d0580fca, 0x1c16e43ef2142a4a)) + 39 == 0x84f22c421a11a8dc
    ensures Update32(0x84f22c421a11a8dc, Load32([0x65, 0x74, 0x69, 0x74])) == 0x9fca0f5d0aaa110f
    ensures Update8(0x9fca0f5d0aaa110f, 0x69) == 0x769671546f21ba14 && Update8(0x769671546f21ba14, 0x6f) == 0xeae9b643c5f94e52 && Update8(0xeae9b643c5f94e52, 0x6e) == 0x1d0a47483b37cc24
    ensures Avalanche(0x1d0a47483b37cc24) == 0xfbcea83c8a378bf1
  {
    StripeStart();
    StripeRound1();
    StripeRound2();
    StripeRound3();
    StripeRound4();
    StripeMerged();
    StripeTail();
  }

  lemma StripeStart()
    ensures InitAccs(0) == Accs(0x60ea27eeadc0b5d6, 0xc2b2ae3d27d4eb4f, 0x0000000000000000, 0x61c8864e7a143579)
  {
  }

  lemma StripeRound1()
    ensures Load64([0x4e, 0x6f, 0x62, 0x6f, 0x64, 0x79, 0x20, 0x69]) == 0x692079646f626f4e && Round(0x60ea27eeadc0b5d6, 0x692079646f626f4e) == 0x37245127a4067e4b
  {
  }

  lemma StripeRound2()
    ensures Load64([0x6e, 0x73, 0x70, 0x65, 0x63, 0x74, 0x73, 0x20]) == 0x207374636570736e && Round(0xc2b2ae3d27d4eb4f, 0x207374636570736e) == 0x1b302b0a818f92cf
  {
  }

  lemma StripeRound3()
    ensures Load64([0x74, 0x68, 0x65, 0x20, 0x73, 0x70, 0x61, 0x6d]) == 0x6d61707320656874 && Round(0x0000000000000000, 0x6d61707320656874) == 0xcd62d843d0580fca
  {
  }

  lemma StripeRound4()
    ensures Load64([0x6d, 0x69, 0x73, 0x68, 0x20, 0x72, 0x65, 0x70]) == 0x706572206873696d && Round(0x61c8864e7a143579, 0x706572206873696d) == 0x1c16e43ef2142a4a
  {
  }

  lemma StripeMerged()
    ensures MergeAccs(Accs(0x37245127a4067e4b, 0x1b302b0a818f92cf, 0xcd62d843d0580fca, 0x1c16e43ef2142a4a)) + 39 == 0x84f22c421a11a8dc
  {
  }

  lemma StripeTail()
    ensures Update32(0x84f22c421a11a8dc, Load32([0x65, 0x74, 0x69, 0x74])) == 0x9fca0f5d0aaa110f
    ensures Update8(0x9fca0f5d0aaa110f, 0x69) == 0x769671546f21ba14 && Update8(0x769671546f21ba14, 0x6f) == 0xeae9b643c5f94e52 && Update8(0xeae9b643c5f94e52, 0x6e) == 0x1d0a47483b37cc24
    ensures Avalanche(0x1d0a47483b37cc24) == 0xfbcea83c8a378bf1
  {
  }
}
