/** Frames written octet by octet, and where the parser finds their TCP header. */
module Frames {
  import opened Basics
  import opened Headers

  /** A VLAN tag: customer (802.1Q) or service (802.1ad), and its control word. */
  datatype Tag = Tag(service: bool, control: seq<Octet>)

  predicate TagsOk(tags: seq<Tag>) {
    |tags| <= 2 && forall i :: 0 <= i < |tags| ==> |tags[i].control| == 2
  }

  function TypeOf(t: Tag): seq<Octet> { if t.service then [0x88, 0xA8] else [0x81, 0x00] }

  /** What follows the two addresses: the tags, then the type of the payload. */
  function Types(tags: seq<Tag>, kind: seq<Octet>): seq<Octet> {
    if tags == [] then kind else TypeOf(tags[0]) + tags[0].control + Types(tags[1..], kind)
  }

  /** An IPv6 extension header without its first octet: hop-by-hop, routing, destination or mobility in
      units of eight octets, authentication in units of four. */
  datatype Extension = Extension(kind: Octet, length: Octet, body: seq<Octet>)

  predicate WellSized(x: Extension) {
    if x.kind == 51 then |x.body| + 2 == 4 * (x.length as nat + 2)
    else x.kind in {0, 43, 60, 135} && |x.body| + 2 == 8 * (x.length as nat + 1)
  }

  predicate AllSized(xs: seq<Extension>) {
    forall i :: 0 <= i < |xs| ==> WellSized(xs[i])
  }

  /** The type of the first header of a chain that ends in one of type `last`. */
  function FirstType(xs: seq<Extension>, last: Octet): Octet {
    if xs == [] then last else xs[0].kind
  }

  /** The chain on the wire: every header names the type of the next. */
  function ChainOctets(xs: seq<Extension>, last: Octet): seq<Octet> {
    if xs == [] then [] else [FirstType(xs[1..], last), xs[0].length] + xs[0].body + ChainOctets(xs[1..], last)
  }

  // ----- the chain

  /** A well-sized header at the front of `data[pos..]`. */
  lemma OneExtension(data: seq<Octet>, pos: nat, x: Extension, next: Octet, rest: seq<Octet>, headers: nat)
    requires WellSized(x) && pos <= |data| && data[pos..] == [next, x.length] + x.body + rest
    ensures Follow(data, pos, x.kind, headers) == Follow(data, pos + |x.body| + 2, next, headers + 1)
    ensures pos + |x.body| + 2 <= |data| && data[pos + |x.body| + 2..] == rest
  {
    var here := data[pos..];
    assert data[pos] == here[0] == next && data[pos + 1] == here[1] == x.length;
    assert data[pos + |x.body| + 2..] == here[|x.body| + 2..];
  }

  lemma {:induction false} ChainSplit(xs: seq<Extension>, last: Octet, rest: seq<Octet>)
    requires xs != []
    ensures
      var tail := ChainOctets(xs[1..], last);
      && ChainOctets(xs, last) + rest == [FirstType(xs[1..], last), xs[0].length] + xs[0].body + (tail + rest)
      && |ChainOctets(xs, last)| == 2 + |xs[0].body| + |tail|
  {
    Regroup([FirstType(xs[1..], last), xs[0].length], xs[0].body, ChainOctets(xs[1..], last), rest);
  }

  lemma Regroup(a: seq<Octet>, b: seq<Octet>, c: seq<Octet>, d: seq<Octet>)
    ensures a + b + c + d == a + b + (c + d)
  {
  }

  lemma {:induction false} ChainStep(data: seq<Octet>, pos: nat, xs: seq<Extension>, last: Octet, rest: seq<Octet>, headers: nat)
    returns (next: nat)
    requires xs != [] && WellSized(xs[0]) && pos <= |data| && data[pos..] == ChainOctets(xs, last) + rest
    ensures Follow(data, pos, FirstType(xs, last), headers) == Follow(data, next, FirstType(xs[1..], last), headers + 1)
    ensures next <= |data| && data[next..] == ChainOctets(xs[1..], last) + rest
    ensures next + |ChainOctets(xs[1..], last)| == pos + |ChainOctets(xs, last)|
  {
    ChainSplit(xs, last, rest);
    OneExtension(data, pos, xs[0], FirstType(xs[1..], last), ChainOctets(xs[1..], last) + rest, headers);
    next := pos + |xs[0].body| + 2;
  }

  lemma UpperHere(data: seq<Octet>, pos: nat, headers: nat)
    requires pos + 2 <= |data|
    ensures Follow(data, pos, 6, headers) == Upper(6, pos, headers)
  {
  }

  lemma {:induction false} ChainFollowed(data: seq<Octet>, pos: nat, xs: seq<Extension>, rest: seq<Octet>, headers: nat)
    requires AllSized(xs) && |rest| >= 2 && pos <= |data| && data[pos..] == ChainOctets(xs, 6) + rest
    ensures Follow(data, pos, FirstType(xs, 6), headers) == Upper(6, pos + |ChainOctets(xs, 6)|, headers + |xs|)
    decreases |xs|
  {
    if xs == [] {
      UpperHere(data, pos, headers);
    } else {
      var next := ChainStep(data, pos, xs, 6, rest, headers);
      ChainFollowed(data, next, xs[1..], rest, headers + 1);
    }
  }

  // ----- the tags

  lemma {:induction false} TagsSkipped(data: seq<Octet>, pos: nat, tags: seq<Tag>, kind: seq<Octet>, rest: seq<Octet>, depth: nat)
    requires |tags| <= depth && forall i :: 0 <= i < |tags| ==> |tags[i].control| == 2
    requires |kind| == 2 && kind != [0x81, 0x00] && kind != [0x88, 0xA8]
    requires pos + 2 <= |data| && data[pos..] == Types(tags, kind) + rest
    ensures Untagged(data, pos + 2, Be16(data, pos), depth) == (256 * (kind[0] as nat) + kind[1], pos + 2 + 4 * |tags|)
    ensures pos + 2 + 4 * |tags| <= |data| && data[pos + 2 + 4 * |tags|..] == rest
    decreases |tags|
  {
    var here := data[pos..];
    assert data[pos] == here[0] && data[pos + 1] == here[1];
    if tags == [] {
      assert data[pos + 2..] == here[2..];
    } else {
      var t, more := tags[0], Types(tags[1..], kind);
      TypesLong(tags[1..], kind);
      assert here == TypeOf(t) + t.control + (more + rest);
      assert data[pos + 4..] == here[4..] == more + rest;
      TagsSkipped(data, pos + 4, tags[1..], kind, rest, depth - 1);
    }
  }

  lemma {:induction false} TypesLong(tags: seq<Tag>, kind: seq<Octet>)
    requires |kind| == 2 && forall i :: 0 <= i < |tags| ==> |tags[i].control| == 2
    ensures |Types(tags, kind)| == 4 * |tags| + 2
    decreases |tags|
  {
    if tags != [] { TypesLong(tags[1..], kind); }
  }

  // ----- whole frames

  /** Two addresses, tags, and a payload of type `kind`. */
  function Frame(addresses: seq<Octet>, tags: seq<Tag>, kind: seq<Octet>, payload: seq<Octet>): seq<Octet> {
    addresses + (Types(tags, kind) + payload)
  }

  lemma FrameUntagged(addresses: seq<Octet>, tags: seq<Tag>, kind: seq<Octet>, payload: seq<Octet>)
    requires |addresses| == 12 && TagsOk(tags) && |kind| == 2 && kind != [0x81, 0x00] && kind != [0x88, 0xA8]
    ensures
      var data := Frame(addresses, tags, kind, payload);
      && |data| == 14 + 4 * |tags| + |payload| && data[14 + 4 * |tags|..] == payload
      && Untagged(data, ETH_HLEN, Be16(data, 12), VLAN_MAX_DEPTH) == (256 * (kind[0] as nat) + kind[1], 14 + 4 * |tags|)
  {
    var data := Frame(addresses, tags, kind, payload);
    TypesLong(tags, kind);
    assert data[12..] == Types(tags, kind) + payload;
    TagsSkipped(data, 12, tags, kind, payload, 2);
  }

  /** An IPv4 header that is not of a fragment and says TCP. */
  predicate Ipv4Tcp(ip: seq<Octet>) {
    && |ip| >= 20 && ip[0] / 16 == 4 && |ip| == ip[0] % 16 * 4
    && ip[6] % 64 == 0 && ip[7] == 0 && ip[9] == 6
  }

  /** The TCP header of an IPv4 frame, tagged or not, is found behind the IP header and its options. */
  lemma Ipv4FrameLocated(addresses: seq<Octet>, tags: seq<Tag>, ip: seq<Octet>, tcp: seq<Octet>)
    requires |addresses| == 12 && TagsOk(tags) && Ipv4Tcp(ip)
    ensures Locate(Frame(addresses, tags, [0x08, 0x00], ip + tcp)) == At(6, 14 + 4 * |tags|, 14 + 4 * |tags| + |ip|)
  {
    var data, pos := Frame(addresses, tags, [0x08, 0x00], ip + tcp), 14 + 4 * |tags|;
    FrameUntagged(addresses, tags, [0x08, 0x00], ip + tcp);
    PayloadAt(data, pos, ip, tcp);
    assert data[pos] == ip[0] && data[pos + 6] == ip[6] && data[pos + 7] == ip[7] && data[pos + 9] == ip[9];
  }

  lemma PayloadAt(data: seq<Octet>, pos: nat, a: seq<Octet>, b: seq<Octet>)
    requires pos <= |data| && data[pos..] == a + b
    ensures pos + |a| + |b| == |data| && data[pos + |a|..] == b
    ensures forall k :: 0 <= k < |a| ==> data[pos + k] == a[k]
  {
    forall k | 0 <= k < |a| ensures data[pos + k] == a[k] {
      assert data[pos..][k] == (a + b)[k];
    }
    assert data[pos + |a|..] == data[pos..][|a|..];
  }

  /** The chain behind an IPv6 header at `pos`, followed to its end. */
  lemma ChainBehind(data: seq<Octet>, pos: nat, ip: seq<Octet>, xs: seq<Extension>, tcp: seq<Octet>)
    requires pos <= |data| && data[pos..] == ip + (ChainOctets(xs, 6) + tcp) && |ip| == 40 && ip[6] == FirstType(xs, 6)
    requires AllSized(xs) && |tcp| >= 2
    ensures pos + 40 <= |data| && data[pos] == ip[0]
    ensures Follow(data, pos + IPV6_HLEN, data[pos + 6], 0) == Upper(6, pos + 40 + |ChainOctets(xs, 6)|, |xs|)
  {
    PayloadAt(data, pos, ip, ChainOctets(xs, 6) + tcp);
    assert data[pos + 0] == ip[0] && data[pos + 6] == ip[6];
    ChainFollowed(data, pos + 40, xs, tcp, 0);
  }

  lemma LocatedBehind(data: seq<Octet>, pos: nat, c: Chain)
    requires |data| >= ETH_HLEN && Untagged(data, ETH_HLEN, Be16(data, 12), VLAN_MAX_DEPTH) == (ETH_P_IPV6, pos)
    requires pos + IPV6_HLEN <= |data| && data[pos] / 16 == 6
    requires Follow(data, pos + IPV6_HLEN, data[pos + 6], 0) == c && c.Upper?
    ensures Locate(data) == if c.headers <= 5 then At(c.proto, pos, c.pos) else Nowhere
  {
  }

  /** The TCP header of an IPv6 frame is found behind its extension headers, exactly if there are at most
      five of them. */
  lemma Ipv6FrameLocated(addresses: seq<Octet>, tags: seq<Tag>, ip: seq<Octet>, xs: seq<Extension>, tcp: seq<Octet>)
    requires |addresses| == 12 && TagsOk(tags) && |ip| == 40 && ip[0] / 16 == 6 && ip[6] == FirstType(xs, 6)
    requires AllSized(xs) && |tcp| >= 2
    ensures
      var data, pos := Frame(addresses, tags, [0x86, 0xDD], ip + (ChainOctets(xs, 6) + tcp)), 14 + 4 * |tags|;
      Locate(data) == if |xs| <= 5 then At(6, pos, pos + 40 + |ChainOctets(xs, 6)|) else Nowhere
  {
    var data := Ipv6Frame(addresses, tags, ip + (ChainOctets(xs, 6) + tcp));
    Ipv6Located(data, 14 + 4 * |tags|, ip, xs, tcp);
  }

  lemma Ipv6Frame(addresses: seq<Octet>, tags: seq<Tag>, payload: seq<Octet>) returns (data: seq<Octet>)
    requires |addresses| == 12 && TagsOk(tags)
    ensures data == Frame(addresses, tags, [0x86, 0xDD], payload) && |data| >= ETH_HLEN
    ensures Untagged(data, ETH_HLEN, Be16(data, 12), VLAN_MAX_DEPTH) == (ETH_P_IPV6, 14 + 4 * |tags|)
    ensures 14 + 4 * |tags| <= |data| && data[14 + 4 * |tags|..] == payload
  {
    data := Frame(addresses, tags, [0x86, 0xDD], payload);
    FrameUntagged(addresses, tags, [0x86, 0xDD], payload);
  }

  lemma Ipv6Located(data: seq<Octet>, pos: nat, ip: seq<Octet>, xs: seq<Extension>, tcp: seq<Octet>)
    requires |data| >= ETH_HLEN && Untagged(data, ETH_HLEN, Be16(data, 12), VLAN_MAX_DEPTH) == (ETH_P_IPV6, pos)
    requires pos <= |data| && data[pos..] == ip + (ChainOctets(xs, 6) + tcp)
    requires |ip| == 40 && ip[0] / 16 == 6 && ip[6] == FirstType(xs, 6) && AllSized(xs) && |tcp| >= 2
    ensures Locate(data) == if |xs| <= 5 then At(6, pos, pos + 40 + |ChainOctets(xs, 6)|) else Nowhere
  {
    ChainBehind(data, pos, ip, xs, tcp);
    LocatedBehind(data, pos, Upper(6, pos + 40 + |ChainOctets(xs, 6)|, |xs|));
  }

  /** The size of a TCP header found at the end of a frame is the one its data offset gives, if it is whole. */
  lemma TcpHeaderSized(data: seq<Octet>, pos: nat, tcp: seq<Octet>)
    requires pos <= |data| && data[pos..] == tcp
    ensures TcpSize(data, pos) == if |tcp| >= 20 && 20 <= tcp[12] / 16 * 4 <= |tcp| then tcp[12] / 16 * 4 else 0
  {
    if |tcp| >= 20 { assert data[pos + 12] == data[pos..][12]; }
  }
}
