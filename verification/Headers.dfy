/** Finding the network and transport headers of a frame: Ethernet with up to two VLAN tags, IPv4, and
    IPv6 with its extension headers (section 4 of RFC 8200). */
module Headers {
  import opened Basics

  const ETH_HLEN: nat := 14
  const VLAN_HLEN: nat := 4
  const VLAN_MAX_DEPTH: nat := 2
  const IPV4_HLEN: nat := 20
  const IPV6_HLEN: nat := 40
  const IPV6_EXT_MAX_CHAIN: nat := 6
  const IPV6_EXT_HDR_MAXLEN: nat := 2048
  const L3_OFF_MAX: nat := ETH_HLEN + VLAN_MAX_DEPTH * VLAN_HLEN
  const L4_OFF_MAX: nat := L3_OFF_MAX + IPV6_HLEN + IPV6_EXT_MAX_CHAIN * IPV6_EXT_HDR_MAXLEN

  const ETH_P_IP: nat := 0x0800
  const ETH_P_ARP: nat := 0x0806
  const ETH_P_IPV6: nat := 0x86DD
  const ETH_P_8021Q: nat := 0x8100
  const ETH_P_8021AD: nat := 0x88A8

  const TCP: nat := 6
  const HOPOPTS: Octet := 0
  const ROUTING: Octet := 43
  const FRAGMENT: Octet := 44
  const AH: Octet := 51
  const DSTOPTS: Octet := 60
  const MH: Octet := 135

  /** A position in the packet `data`; `end` is its length. */
  class HdrCursor {
    const data: seq<Octet>
    var pos: nat

    constructor (data: seq<Octet>)
      ensures this.data == data && pos == 0
    {
      this.data := data;
      pos := 0;
    }
  }

  // ----- Ethernet

  function Be16(data: seq<Octet>, i: nat): nat
    requires i + 2 <= |data|
  {
    data[i] as nat * 256 + data[i + 1] as nat
  }

  predicate IsVlan(proto: nat) { proto == ETH_P_8021Q || proto == ETH_P_8021AD }

  /** Protocol and position behind at most `depth` tags that are wholly inside the packet. */
  function Untagged(data: seq<Octet>, pos: nat, proto: nat, depth: nat): (nat, nat)
    requires pos <= |data|
    decreases depth
  {
    if depth == 0 || !IsVlan(proto) || pos + VLAN_HLEN > |data| then (proto, pos)
    else Untagged(data, pos + VLAN_HLEN, Be16(data, pos + 2), depth - 1)
  }

  datatype Parsed = EINVAL | EFBIG | Proto(value: nat)

  method ParseEthhdr(cur: HdrCursor) returns (r: Parsed)
    requires cur.pos == 0
    modifies cur
    ensures |cur.data| < ETH_HLEN <==> r == EINVAL
    ensures r != EINVAL ==> (r, cur.pos) == (var u := Untagged(cur.data, ETH_HLEN, Be16(cur.data, 12), VLAN_MAX_DEPTH); (Proto(u.0), u.1))
    ensures r != EINVAL ==> ETH_HLEN <= cur.pos <= L3_OFF_MAX && cur.pos <= |cur.data|
  {
    if cur.pos + ETH_HLEN > |cur.data| { return EINVAL; }
    cur.pos := cur.pos + ETH_HLEN;
    var vlh, proto := cur.pos, Be16(cur.data, 12);
    var i := 0;
    while i < VLAN_MAX_DEPTH
      invariant 0 <= i <= VLAN_MAX_DEPTH && cur.pos == ETH_HLEN && vlh == ETH_HLEN + i * VLAN_HLEN <= |cur.data|
      invariant Untagged(cur.data, ETH_HLEN, Be16(cur.data, 12), VLAN_MAX_DEPTH)
                == Untagged(cur.data, vlh, proto, VLAN_MAX_DEPTH - i)
    {
      if !IsVlan(proto) { break; }
      if vlh + VLAN_HLEN > |cur.data| { break; }
      proto := Be16(cur.data, vlh + 2);
      vlh := vlh + VLAN_HLEN;
      i := i + 1;
    }
    cur.pos := vlh;
    r := Proto(proto);
  }

  // ----- IPv6 extension headers

  /** The chain followed to its end, however long. */
  datatype Chain = Malformed(headers: nat) | Fragmented(headers: nat) | Upper(proto: Octet, pos: nat, headers: nat)

  predicate IsExtension(next: Octet) {
    next == AH || next == HOPOPTS || next == DSTOPTS || next == ROUTING || next == MH
  }

  /** Length of the extension header of type `next` whose length octet is `len`. */
  function ExtLen(next: Octet, len: Octet): nat {
    if next == AH then (len as nat + 2) * 4 else (len as nat + 1) * 8
  }

  function Follow(data: seq<Octet>, pos: nat, next: Octet, headers: nat): (c: Chain)
    ensures c.headers >= headers
    ensures c.Upper? ==> pos <= c.pos <= pos + (c.headers - headers) * IPV6_EXT_HDR_MAXLEN
    ensures c.Upper? ==> c.pos + 2 <= |data| && !IsExtension(c.proto) && c.proto != FRAGMENT
    decreases |data| - pos
  {
    if pos + 2 > |data| then Malformed(headers)
    else if next == FRAGMENT then Fragmented(headers)
    else if !IsExtension(next) then Upper(next, pos, headers)
    else Follow(data, pos + ExtLen(next, data[pos + 1]), data[pos], headers + 1)
  }

  /** The header behind the extension headers, if the chain has at most five of them. */
  method SkipIp6hdrext(cur: HdrCursor, nextHdr: Octet) returns (r: Parsed)
    modifies cur
    ensures var c := Follow(cur.data, old(cur.pos), nextHdr, 0);
      if c.headers >= IPV6_EXT_MAX_CHAIN then r == EINVAL
      else match c {
        case Malformed(_) => r == EINVAL
        case Fragmented(_) => r == EFBIG
        case Upper(proto, pos, _) => r == Proto(proto) && cur.pos == pos
      }
  {
    var next, i := nextHdr, 0;
    while i < IPV6_EXT_MAX_CHAIN
      invariant 0 <= i <= IPV6_EXT_MAX_CHAIN
      invariant Follow(cur.data, old(cur.pos), nextHdr, 0) == Follow(cur.data, cur.pos, next, i)
    {
      var hdr := cur.pos;
      if hdr + 2 > |cur.data| { return EINVAL; }
      if next == FRAGMENT { return EFBIG; }
      if next == AH {
        cur.pos := hdr + (cur.data[hdr + 1] as nat + 2) * 4;
        next := cur.data[hdr];
      } else if next != HOPOPTS && next != DSTOPTS && next != ROUTING && next != MH {
        return Proto(next);
      } else {
        cur.pos := hdr + (cur.data[hdr + 1] as nat + 1) * 8;
        next := cur.data[hdr];
      }
      i := i + 1;
    }
    return EINVAL;
  }

  // ----- network headers

  method ParseIp6hdr(cur: HdrCursor) returns (ok: bool)
    modifies cur
    ensures ok <==> old(cur.pos) + IPV6_HLEN <= |cur.data| && cur.data[old(cur.pos)] / 16 == 6
    ensures cur.pos == if ok then old(cur.pos) + IPV6_HLEN else old(cur.pos)
  {
    if cur.pos + IPV6_HLEN > |cur.data| { return false; }
    if cur.data[cur.pos] / 16 != 6 { return false; }
    cur.pos := cur.pos + IPV6_HLEN;
    return true;
  }

  /** Size of a well-formed IPv4 header at `pos`, 0 if there is none. */
  function Ipv4Size(data: seq<Octet>, pos: nat): nat {
    if pos + IPV4_HLEN > |data| || data[pos] / 16 != 4 then 0
    else
      var size := data[pos] % 16 * 4;
      if size < IPV4_HLEN || pos + size > |data| then 0 else size
  }

  method ParseIphdr(cur: HdrCursor) returns (r: Parsed)
    modifies cur
    ensures r != EFBIG && (r == EINVAL <==> Ipv4Size(cur.data, old(cur.pos)) == 0)
    ensures cur.pos == old(cur.pos) + Ipv4Size(cur.data, old(cur.pos))
    ensures r.Proto? ==> r.value == cur.data[old(cur.pos) + 9] as nat
  {
    var iph := cur.pos;
    if iph + IPV4_HLEN > |cur.data| { return EINVAL; }
    if cur.data[iph] / 16 != 4 { return EINVAL; }
    var size := cur.data[iph] % 16 * 4;
    if size < IPV4_HLEN || iph + size > |cur.data| { return EINVAL; }
    cur.pos := iph + size;
    return Proto(cur.data[iph + 9]);
  }

  // ----- a frame

  datatype Verdict = Pass | Drop | Continue(proto: nat, ipOff: nat)

  /** IPv4 without a fragment offset or a following fragment. */
  predicate Ipv4Accepted(data: seq<Octet>, pos: nat) {
    Ipv4Size(data, pos) > 0 && Be16(data, pos + 6) % 0x4000 == 0
  }

  /** IPv6 with at most five extension headers, none of them a fragment header. */
  predicate Ipv6Accepted(data: seq<Octet>, pos: nat) {
    && pos + IPV6_HLEN <= |data| && data[pos] / 16 == 6
    && var c := Follow(data, pos + IPV6_HLEN, data[pos + 6], 0);
       c.Upper? && c.headers < IPV6_EXT_MAX_CHAIN
  }

  /** Network layer of a frame whose cursor has passed the link layer with protocol `ipver`. */
  method InProcessL3(cur: HdrCursor, ipver: nat) returns (v: Verdict)
    requires cur.pos <= L3_OFF_MAX
    modifies cur
    ensures v.Continue? <==>
      (ipver == ETH_P_IP && Ipv4Accepted(cur.data, old(cur.pos))) || (ipver == ETH_P_IPV6 && Ipv6Accepted(cur.data, old(cur.pos)))
    ensures v == Pass <==> ipver == ETH_P_ARP
    ensures v.Continue? ==> v.ipOff == old(cur.pos) && v.ipOff + IPV4_HLEN <= cur.pos <= |cur.data|
    ensures v.Continue? ==> cur.pos <= L4_OFF_MAX - IPV6_EXT_HDR_MAXLEN
    ensures v.Continue? && ipver == ETH_P_IP ==>
      v.proto == cur.data[v.ipOff + 9] as nat && cur.pos == v.ipOff + Ipv4Size(cur.data, v.ipOff)
    ensures v.Continue? && ipver == ETH_P_IPV6 ==>
      var c := Follow(cur.data, v.ipOff + IPV6_HLEN, cur.data[v.ipOff + 6], 0);
      v.proto == c.proto as nat && cur.pos == c.pos
  {
    var iph := cur.pos;
    if ipver == ETH_P_IP {
      var r := ParseIphdr(cur);
      if !r.Proto? { return Drop; }
      if Be16(cur.data, iph + 6) % 0x4000 != 0 { return Drop; }
      assert iph <= L3_OFF_MAX;
      return Continue(r.value, iph);
    } else if ipver == ETH_P_IPV6 {
      var ok := ParseIp6hdr(cur);
      if !ok { return Drop; }
      var r := SkipIp6hdrext(cur, cur.data[iph + 6]);
      if !r.Proto? { return Drop; }
      assert iph <= L3_OFF_MAX;
      return Continue(r.value, iph);
    }
    return if ipver == ETH_P_ARP then Pass else Drop;
  }

  datatype Located = Nowhere | At(proto: nat, ipOff: nat, l4Off: nat)

  /** Where the transport header of an acceptable frame is. */
  function Locate(data: seq<Octet>): Located {
    if |data| < ETH_HLEN then Nowhere
    else
      var (ipver, pos) := Untagged(data, ETH_HLEN, Be16(data, 12), VLAN_MAX_DEPTH);
      if ipver == ETH_P_IP && Ipv4Accepted(data, pos) then At(data[pos + 9], pos, pos + Ipv4Size(data, pos))
      else if ipver == ETH_P_IPV6 && Ipv6Accepted(data, pos) then
        var c := Follow(data, pos + IPV6_HLEN, data[pos + 6], 0);
        At(c.proto, pos, c.pos)
      else Nowhere
  }

  /** Size of a well-formed TCP header at `pos`, 0 if there is none. */
  function TcpSize(data: seq<Octet>, pos: nat): nat {
    if pos + 20 > |data| then 0
    else
      var size := data[pos + 12] / 16 * 4;
      if size < 20 || pos + size > |data| then 0 else size
  }

  /** Ethernet, IP and TCP headers: found exactly where they are. The checks of both offsets always succeed. */
  method FindTcp(data: seq<Octet>) returns (found: bool, ipOff: nat, l4Off: nat, headerLen: nat)
    ensures var l := Locate(data);
      && (found <==> l.At? && l.proto == TCP && TcpSize(data, l.l4Off) > 0)
      && (found ==> l == At(TCP, ipOff, l4Off) && headerLen == TcpSize(data, l4Off))
    ensures found ==> ETH_HLEN <= ipOff <= L3_OFF_MAX && ipOff + IPV4_HLEN <= l4Off <= L4_OFF_MAX
  {
    ipOff, l4Off, headerLen := 0, 0, 0;
    var cur := new HdrCursor(data);
    var link := ParseEthhdr(cur);
    if link == EINVAL { return false, ipOff, l4Off, headerLen; }
    var v := InProcessL3(cur, link.value);
    if !v.Continue? || v.proto != TCP { return false, ipOff, l4Off, headerLen; }
    ipOff, l4Off := v.ipOff, cur.pos;
    if l4Off + 20 > |data| { return false, ipOff, l4Off, headerLen; }
    headerLen := data[l4Off + 12] / 16 * 4;
    if headerLen < 20 || l4Off + headerLen > |data| { return false, ipOff, l4Off, headerLen; }
    assert l4Off <= L4_OFF_MAX;
    return true, ipOff, l4Off, headerLen;
  }
}
