/** Addresses as byte arrays in network byte order, and their bit view: bit 0 is the top bit of octet 0. */
module AddressBits {
  import opened Basics

  type Addr = seq<bv8>

  /** 0x80 >> k */
  function Mask(k: nat): bv8
    requires k < 8
  {
    if k == 0 then 0x80 else if k == 1 then 0x40 else if k == 2 then 0x20 else if k == 3 then 0x10
    else if k == 4 then 0x08 else if k == 5 then 0x04 else if k == 6 then 0x02 else 0x01
  }

  /** 0xff << (8 - k), truncated to an octet */
  function HighMask(k: nat): bv8
    requires 0 < k < 8
  {
    if k == 1 then 0x80 else if k == 2 then 0xC0 else if k == 3 then 0xE0 else if k == 4 then 0xF0
    else if k == 5 then 0xF8 else if k == 6 then 0xFC else 0xFE
  }

  predicate BitSet(x: bv8, k: nat)
    requires k < 8
  {
    x & Mask(k) != 0
  }

  function BitsOf(a: Addr): (r: seq<bool>)
    ensures |r| == 8 * |a|
  {
    seq(8 * |a|, i requires 0 <= i < 8 * |a| => BitSet(a[i / 8], i % 8))
  }

  function Zeros(n: nat): seq<bool> {
    seq(n, _ => false)
  }

  function Or(b: bool, k: nat): bv8
    requires k < 8
  {
    if b then Mask(k) else 0
  }

  function ByteAt(p: seq<bool>, i: nat): bv8 {
    var b := (k: nat) => 8 * i + k < |p| && p[8 * i + k];
    Or(b(0), 0) | Or(b(1), 1) | Or(b(2), 2) | Or(b(3), 3) | Or(b(4), 4) | Or(b(5), 5) | Or(b(6), 6) | Or(b(7), 7)
  }

  /** Network order: the first bit of an octet weighs 128, the last one 1. */
  lemma OctetWeighs(x: bv8)
    ensures x == (if BitSet(x, 0) then 128 else 0) + (if BitSet(x, 1) then 64 else 0) + (if BitSet(x, 2) then 32 else 0)
                 + (if BitSet(x, 3) then 16 else 0) + (if BitSet(x, 4) then 8 else 0) + (if BitSet(x, 5) then 4 else 0)
                 + (if BitSet(x, 6) then 2 else 0) + (if BitSet(x, 7) then 1 else 0)
  {
  }

  lemma ByteEqual(x: bv8, y: bv8)
    requires forall k: nat :: k < 8 ==> BitSet(x, k) == BitSet(y, k)
    ensures x == y
  {
    assert BitSet(x, 0) == BitSet(y, 0) && BitSet(x, 1) == BitSet(y, 1);
    assert BitSet(x, 2) == BitSet(y, 2) && BitSet(x, 3) == BitSet(y, 3);
    assert BitSet(x, 4) == BitSet(y, 4) && BitSet(x, 5) == BitSet(y, 5);
    assert BitSet(x, 6) == BitSet(y, 6) && BitSet(x, 7) == BitSet(y, 7);
  }

  lemma BitIndex(i: nat, k: nat)
    requires k < 8
    ensures (8 * i + k) / 8 == i && (8 * i + k) % 8 == k
  {
  }

  lemma OctetFromBits(a: Addr, b: Addr, i: nat)
    requires i < |a| == |b|
    requires forall j :: 8 * i <= j < 8 * i + 8 ==> BitsOf(a)[j] == BitsOf(b)[j]
    ensures a[i] == b[i]
  {
    forall k: nat | k < 8 ensures BitSet(a[i], k) == BitSet(b[i], k) {
      BitIndex(i, k);
      assert BitsOf(a)[8 * i + k] == BitsOf(b)[8 * i + k];
    }
    ByteEqual(a[i], b[i]);
  }

  /** The bit view loses nothing. */
  lemma BitsInjective(a: Addr, b: Addr)
    requires BitsOf(a) == BitsOf(b)
    ensures a == b
  {
    assert |a| == |b|;
    forall i | 0 <= i < |a| ensures a[i] == b[i] {
      OctetFromBits(a, b, i);
    }
  }

  lemma ByteBits(p: seq<bool>, i: nat, k: nat)
    requires k < 8
    ensures BitSet(ByteAt(p, i), k) == (8 * i + k < |p| && p[8 * i + k])
  {
  }

  /** The base address of prefix `p` in an address of `n` octets: its bits, then zeros. */
  function AddrOf(p: seq<bool>, n: nat): (a: Addr)
    ensures |a| == n
  {
    seq(n, i requires 0 <= i => ByteAt(p, i))
  }

  lemma AddrOfBits(p: seq<bool>, n: nat)
    requires |p| <= 8 * n
    ensures BitsOf(AddrOf(p, n)) == p + Zeros(8 * n - |p|)
    ensures BitsOf(AddrOf(p, n))[..|p|] == p
  {
    var a := AddrOf(p, n);
    forall j | 0 <= j < 8 * n ensures BitsOf(a)[j] == (p + Zeros(8 * n - |p|))[j] {
      ByteBits(p, j / 8, j % 8);
    }
    assert (p + Zeros(8 * n - |p|))[..|p|] == p;
  }

  lemma KeepHigh(x: bv8, k: nat, j: nat)
    requires 0 < k < 8 && j < 8
    ensures BitSet(x & HighMask(k), j) == (j < k && BitSet(x, j))
  {
  }

  function FlipBit(x: bv8, k: nat): (r: bv8)
    requires k < 8
    ensures forall j: nat :: j < 8 ==> BitSet(r, j) == if j == k then !BitSet(x, j) else BitSet(x, j)
  {
    x ^ Mask(k)
  }

  /** The address with one bit inverted. */
  function Flipped(a: Addr, bit: nat): (r: Addr)
    requires bit < 8 * |a|
    ensures |r| == |a|
  {
    a[bit / 8 := FlipBit(a[bit / 8], bit % 8)]
  }

  /** Replacing one octet changes the bits of that octet only. */
  lemma UpdateOctet(a: Addr, i: nat, x: bv8, bit: nat, value: bool)
    requires i < |a| && i == bit / 8
    requires forall k: nat :: k < 8 ==> BitSet(x, k) == if k == bit % 8 then value else BitSet(a[i], k)
    ensures BitsOf(a[i := x]) == BitsOf(a)[bit := value]
  {
    var after, want := BitsOf(a[i := x]), BitsOf(a)[bit := value];
    assert forall j :: 0 <= j < 8 * |a| ==> after[j] == want[j];
  }

  lemma FlipBits(a: Addr, bit: nat)
    requires bit < 8 * |a|
    ensures BitsOf(Flipped(a, bit)) == BitsOf(a)[bit := !BitsOf(a)[bit]]
  {
    UpdateOctet(a, bit / 8, FlipBit(a[bit / 8], bit % 8), bit, !BitsOf(a)[bit]);
  }

  function WriteBit(x: bv8, k: nat, value: bool): (r: bv8)
    requires k < 8
    ensures forall j: nat :: j < 8 ==> BitSet(r, j) == if j == k then value else BitSet(x, j)
  {
    if value then x | Mask(k) else x & !Mask(k)
  }

  method SetPrefixBit(addr: array<bv8>, bit: nat, value: bool)
    requires bit < 8 * addr.Length
    modifies addr
    ensures BitsOf(addr[..]) == old(BitsOf(addr[..]))[bit := value]
  {
    var octet := bit / 8;
    ghost var was := addr[..];
    var x := WriteBit(addr[octet], bit % 8, value);
    UpdateOctet(was, octet, x, bit, value);
    addr[octet] := x;
    assert addr[..] == was[octet := x];
  }

  /** Octets wholly inside the prefix are kept by the base address. */
  lemma KeptOctet(a: Addr, b: Addr, len: nat, i: nat)
    requires |a| == |b| && 8 * i + 8 <= len <= 8 * |a|
    requires BitsOf(b)[..len] == BitsOf(a)[..len]
    ensures b[i] == a[i]
  {
    forall j | 8 * i <= j < 8 * i + 8 ensures BitsOf(b)[j] == BitsOf(a)[j] {
      assert BitsOf(b)[j] == BitsOf(b)[..len][j];
    }
    OctetFromBits(b, a, i);
  }

  lemma ClearedOctet(b: Addr, i: nat)
    requires i < |b|
    requires forall j :: 8 * i <= j < 8 * i + 8 ==> !BitsOf(b)[j]
    ensures b[i] == 0
  {
    forall k: nat | k < 8 ensures BitSet(b[i], k) == BitSet(0, k) {
      BitIndex(i, k);
      assert !BitsOf(b)[8 * i + k];
    }
    ByteEqual(b[i], 0);
  }

  lemma SplitBit(a: Addr, b: Addr, len: nat, k: nat)
    requires |a| == |b| && len < 8 * |a| && k < 8
    requires BitsOf(b)[..len] == BitsOf(a)[..len]
    requires forall j :: len <= j < 8 * |b| ==> !BitsOf(b)[j]
    ensures BitSet(b[len / 8], k) == (k < len % 8 && BitSet(a[len / 8], k))
  {
    var j := 8 * (len / 8) + k;
    BitIndex(len / 8, k);
    assert BitsOf(b)[j] == BitSet(b[len / 8], k) && BitsOf(a)[j] == BitSet(a[len / 8], k);
    if k < len % 8 { assert BitsOf(b)[j] == BitsOf(b)[..len][j]; }
  }

  /** The octet the prefix ends in keeps its leading bits. */
  lemma SplitOctet(a: Addr, b: Addr, len: nat)
    requires |a| == |b| && len < 8 * |a| && len % 8 != 0
    requires BitsOf(b)[..len] == BitsOf(a)[..len]
    requires forall j :: len <= j < 8 * |b| ==> !BitsOf(b)[j]
    ensures b[len / 8] == a[len / 8] & HighMask(len % 8)
  {
    var x, y, r := a[len / 8], b[len / 8], len % 8;
    assert forall k: nat :: k < 8 ==> BitSet(y, k) == (k < r && BitSet(x, k)) by {
      forall k: nat | k < 8 ensures BitSet(y, k) == (k < r && BitSet(x, k)) { SplitBit(a, b, len, k); }
    }
    MaskedOctet(x, y, r);
  }

  lemma MaskedOctet(x: bv8, y: bv8, r: nat)
    requires 0 < r < 8
    requires forall k: nat :: k < 8 ==> BitSet(y, k) == (k < r && BitSet(x, k))
    ensures y == x & HighMask(r)
  {
    forall k: nat | k < 8 ensures BitSet(y, k) == BitSet(x & HighMask(r), k) { KeepHigh(x, r, k); }
    ByteEqual(y, x & HighMask(r));
  }

  /** Octet by octet: what lies inside the prefix is kept, the octet it ends in keeps its leading
      bits, the rest is zero. */
  ghost predicate IsCleared(was: Addr, base: Addr, len: nat) {
    && |base| == |was|
    && (forall i :: 0 <= i < |was| && 8 * i + 8 <= len ==> base[i] == was[i])
    && (forall i :: 0 <= i < |was| && len <= 8 * i ==> base[i] == 0)
    && (len % 8 != 0 && len < 8 * |was| ==> base[len / 8] == was[len / 8] & HighMask(len % 8))
  }

  lemma BaseIsCleared(was: Addr, base: Addr, len: nat)
    requires len <= 8 * |was| == 8 * |base| && BitsOf(base) == BitsOf(was)[..len] + Zeros(8 * |was| - len)
    ensures IsCleared(was, base, len)
  {
    assert BitsOf(base)[..len] == BitsOf(was)[..len];
    forall i | 0 <= i < |was| && 8 * i + 8 <= len ensures base[i] == was[i] { KeptOctet(was, base, len, i); }
    forall i | 0 <= i < |was| && len <= 8 * i ensures base[i] == 0 { ClearedOctet(base, i); }
    if len % 8 != 0 && len < 8 * |was| { SplitOctet(was, base, len); }
  }

  method ClearHostBits(addr: array<bv8>, prefixlen: nat, ghost base: Addr)
    requires prefixlen < 8 * addr.Length && IsCleared(addr[..], base, prefixlen)
    modifies addr
    ensures addr[..] == base
  {
    var octet := prefixlen / 8;
    var rem := prefixlen % 8;
    if rem != 0 {
      addr[octet] := addr[octet] & HighMask(rem);
      octet := octet + 1;
    }
    while octet < addr.Length
      invariant prefixlen <= 8 * octet && octet <= addr.Length
      invariant forall i :: 0 <= i < octet ==> addr[i] == base[i]
    {
      addr[octet] := 0;
      octet := octet + 1;
    }
  }

  /** Clears every bit from `prefixlen` on; false is the invalid-length failure. */
  method CanonicalizePrefix(addr: array<bv8>, prefixlen: nat) returns (ok: bool)
    modifies addr
    ensures ok <==> prefixlen <= 8 * addr.Length
    ensures !ok ==> addr[..] == old(addr[..])
    ensures ok ==> addr[..] == AddrOf(old(BitsOf(addr[..]))[..prefixlen], addr.Length)
  {
    if prefixlen > 8 * addr.Length {
      return false;
    }
    ghost var was := addr[..];
    ghost var base := AddrOf(BitsOf(was)[..prefixlen], addr.Length);
    AddrOfBits(BitsOf(was)[..prefixlen], addr.Length);
    if prefixlen == 8 * addr.Length {
      BitsInjective(was, base);
      return true;
    }
    BaseIsCleared(was, base, prefixlen);
    ClearHostBits(addr, prefixlen, base);
    return true;
  }
}
