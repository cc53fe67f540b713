/** Import of a MaxMind search tree into per-length prefix buckets. */
module GeoImport {
  import opened Basics
  import opened GeoPrefix
  import opened GeoTree
  import opened AddressBits

  type Buckets = seq<map<Addr, IsoCountryId>>

  /** `m1` adds to `m` the addresses below `pre` that the tree from node `n` on gives to a country. */
  ghost predicate AddsNode(m: Table, m1: Table, bits: nat, db: Mmdb, n: nat, pre: Prefix, skip: Option<nat>)
    requires |pre| < bits
  {
    forall x, c :: |x| == bits ==>
      (Covers(m1, x, c) <==> Covers(m, x, c) || (Contains(pre, x) && Follow(db, n, x, |pre|, skip) == Some(c)))
  }

  ghost predicate AddsRecord(m: Table, m1: Table, bits: nat, db: Mmdb, r: Record, pre: Prefix, skip: Option<nat>)
    requires |pre| <= bits
  {
    forall x, c :: |x| == bits ==>
      (Covers(m1, x, c) <==> Covers(m, x, c) || (Contains(pre, x) && FollowRecord(db, r, x, |pre|, skip) == Some(c)))
  }

  lemma LeftLeavesRightFree(m: Table, m1: Table, bits: nat, db: Mmdb, r: Record, pre: Prefix, skip: Option<nat>)
    requires |pre| < bits && Disjoint(m, pre) && Bounded(m1, bits)
    requires AddsRecord(m, m1, bits, db, r, pre + [false], skip)
    ensures Disjoint(m1, pre + [true])
  {
    forall x, c | |x| == bits && Contains(pre + [true], x) ensures !Covers(m1, x, c) {
      assert Contains(pre, pre + [true]);
      ContainsTransitive(pre, pre + [true], x);
      DisjointIsUncovered(m, pre, x, c);
      assert x[..|pre| + 1][|pre|] && !(pre + [false])[|pre|];
    }
    UncoveredIsDisjoint(m1, pre + [true], bits);
  }

  lemma HalfDisjoint(m: Table, pre: Prefix, b: bool, bits: nat)
    requires Disjoint(m, pre) && |pre| < bits && Bounded(m, bits)
    ensures Disjoint(m, pre + [b])
  {
    forall x, c | |x| == bits && Contains(pre + [b], x) ensures !Covers(m, x, c) {
      assert Contains(pre, pre + [b]);
      ContainsTransitive(pre, pre + [b], x);
      DisjointIsUncovered(m, pre, x, c);
    }
    UncoveredIsDisjoint(m, pre + [b], bits);
  }

  /** Visiting both records of a node visits the node. */
  lemma BothRecords(m: Table, m1: Table, m2: Table, bits: nat, db: Mmdb, n: nat, pre: Prefix, skip: Option<nat>)
    requires |pre| < bits && n < |db.nodes|
    requires AddsRecord(m, m1, bits, db, db.nodes[n].left, pre + [false], skip)
    requires AddsRecord(m1, m2, bits, db, db.nodes[n].right, pre + [true], skip)
    ensures AddsNode(m, m2, bits, db, n, pre, skip)
  {
    forall x, c | |x| == bits
      ensures Covers(m2, x, c) <==> Covers(m, x, c) || (Contains(pre, x) && Follow(db, n, x, |pre|, skip) == Some(c))
    {
      assert x[..|pre| + 1] == x[..|pre|] + [x[|pre|]];
      assert Contains(pre + [false], x) <==> Contains(pre, x) && !x[|pre|];
      assert Contains(pre + [true], x) <==> Contains(pre, x) && x[|pre|];
    }
  }

  /** `buckets[len]` holds exactly the table's prefixes of length `len`, keyed by base address. */
  ghost predicate Represents(b: Buckets, m: Table, n: nat) {
    && |b| == 8 * n + 1
    && (forall p :: p in m ==> |p| <= 8 * n && AddrOf(p, n) in b[|p|] && b[|p|][AddrOf(p, n)] == m[p])
    && (forall len, a :: 0 <= len < |b| && a in b[len] ==> IsBase(a, len, m, n))
  }

  /** `a` is the base address of a table prefix of length `len`. */
  ghost predicate IsBase(a: Addr, len: nat, m: Table, n: nat) {
    exists p :: p in m && |p| == len && a == AddrOf(p, n)
  }

  function PrefixOf(a: Addr, len: nat): Prefix
    requires len <= 8 * |a|
  {
    BitsOf(a)[..len]
  }

  lemma AddrOfInjective(p: Prefix, q: Prefix, n: nat)
    requires |p| == |q| <= 8 * n
    ensures AddrOf(p, n) == AddrOf(q, n) ==> p == q
  {
    AddrOfBits(p, n);
    AddrOfBits(q, n);
  }

  /** Looking a base address up in its bucket is looking its prefix up in the table. */
  lemma LookupAgrees(b: Buckets, m: Table, n: nat, p: Prefix)
    requires Represents(b, m, n) && |p| <= 8 * n
    ensures AddrOf(p, n) in b[|p|] <==> p in m
    ensures p in m ==> b[|p|][AddrOf(p, n)] == m[p]
  {
    if AddrOf(p, n) in b[|p|] {
      assert IsBase(AddrOf(p, n), |p|, m, n);
      var q :| q in m && |q| == |p| && AddrOf(p, n) == AddrOf(q, n);
      AddrOfInjective(p, q, n);
    }
  }

  lemma EraseAgrees(b: Buckets, m: Table, n: nat, p: Prefix)
    requires Represents(b, m, n) && p in m
    ensures Represents(b[|p| := b[|p|] - {AddrOf(p, n)}], m - {p}, n)
  {
    var b1 := b[|p| := b[|p|] - {AddrOf(p, n)}];
    forall q | q in m - {p}
      ensures AddrOf(q, n) in b1[|q|] && b1[|q|][AddrOf(q, n)] == m[q]
    {
      if |q| == |p| { AddrOfInjective(p, q, n); }
    }
    forall len, a | 0 <= len < |b1| && a in b1[len] ensures IsBase(a, len, m - {p}, n) {
      assert a in b[len] && IsBase(a, len, m, n);
      var q :| q in m && |q| == len && a == AddrOf(q, n);
      assert q in m - {p};
    }
  }

  lemma InsertAgrees(b: Buckets, m: Table, n: nat, p: Prefix, c: IsoCountryId)
    requires Represents(b, m, n) && |p| <= 8 * n
    ensures Represents(b[|p| := b[|p|][AddrOf(p, n) := c]], m[p := c], n)
  {
    var bucket := b[|p|][AddrOf(p, n) := c];
    var b1 := b[|p| := bucket];
    forall q | q in m[p := c]
      ensures |q| <= 8 * n && AddrOf(q, n) in b1[|q|] && b1[|q|][AddrOf(q, n)] == m[p := c][q]
    {
      InsertedEntry(b, m, n, p, c, q);
    }
    forall len, a | 0 <= len < |b1| && a in b1[len] ensures IsBase(a, len, m[p := c], n) {
      assert a in b[len] || (len == |p| && a == AddrOf(p, n));
      InsertedBase(b, m, n, p, c, len, a);
    }
  }

  lemma InsertedEntry(b: Buckets, m: Table, n: nat, p: Prefix, c: IsoCountryId, q: Prefix)
    requires Represents(b, m, n) && |p| <= 8 * n && q in m[p := c]
    ensures
      var b1 := b[|p| := b[|p|][AddrOf(p, n) := c]];
      |q| <= 8 * n && AddrOf(q, n) in b1[|q|] && b1[|q|][AddrOf(q, n)] == m[p := c][q]
  {
    if q != p {
      assert q in m;
      if |q| == |p| { AddrOfInjective(p, q, n); }
    }
  }

  lemma InsertedBase(b: Buckets, m: Table, n: nat, p: Prefix, c: IsoCountryId, len: nat, a: Addr)
    requires Represents(b, m, n) && |p| <= 8 * n && len < |b|
    requires a in b[len] || (len == |p| && a == AddrOf(p, n))
    ensures IsBase(a, len, m[p := c], n)
  {
    if len == |p| && a == AddrOf(p, n) {
      assert p in m[p := c];
    } else {
      assert IsBase(a, len, m, n);
      var q :| q in m && |q| == len && a == AddrOf(q, n);
      assert q in m[p := c];
    }
  }

  /** Flipping the last network bit of a base address gives the sibling's base address. */
  lemma SiblingAddress(p: Prefix, n: nat)
    requires 0 < |p| <= 8 * n
    ensures Flipped(AddrOf(p, n), |p| - 1) == AddrOf(Sibling(p), n)
  {
    var s := Flipped(AddrOf(p, n), |p| - 1);
    AddrOfBits(p, n);
    AddrOfBits(Sibling(p), n);
    FlipBits(AddrOf(p, n), |p| - 1);
    FlipLast(p, Zeros(8 * n - |p|));
    BitsInjective(s, AddrOf(Sibling(p), n));
  }

  lemma FlipLast(p: Prefix, z: Prefix)
    requires |p| > 0
    ensures (p + z)[|p| - 1 := !(p + z)[|p| - 1]] == Sibling(p) + z
  {
  }

  lemma ClearLast(p: Prefix, z: Prefix)
    requires |p| > 0
    ensures (p + z)[|p| - 1 := false] == Parent(p) + ([false] + z)
  {
  }

  /** Clearing the last network bit of a base address gives the parent's base address. */
  lemma ParentAddress(p: Prefix, n: nat, a: Addr)
    requires 0 < |p| <= 8 * n
    requires |a| == n && BitsOf(a) == BitsOf(AddrOf(p, n))[|p| - 1 := false]
    ensures a == AddrOf(Parent(p), n)
  {
    AddrOfBits(p, n);
    AddrOfBits(Parent(p), n);
    ClearLast(p, Zeros(8 * n - |p|));
    assert [false] + Zeros(8 * n - |p|) == Zeros(8 * n - |p| + 1);
    BitsInjective(a, AddrOf(Parent(p), n));
  }

  method ChildPrefix(prefix: Addr, depth: nat, right: bool) returns (child: Addr)
    requires depth < 8 * |prefix|
    ensures |child| == |prefix|
    ensures PrefixOf(child, depth + 1) == PrefixOf(prefix, depth) + [right]
  {
    var buffer := new bv8[|prefix|](i requires 0 <= i < |prefix| => prefix[i]);
    assert buffer[..] == prefix;
    SetPrefixBit(buffer, depth, right);
    child := buffer[..];
  }

  class PrefixImporter {
    /** Octets of an address: 4 for IPv4, 16 for IPv6. */
    const octets: nat
    var buckets: Buckets
    ghost var table: Table

    ghost predicate Valid()
      reads this
    {
      Represents(buckets, table, octets)
    }

    constructor (n: nat)
      ensures octets == n && Valid() && table == map[]
    {
      octets := n;
      buckets := seq(8 * n + 1, _ => map[]);
      table := map[];
    }

    /** False is a thrown exception: an invalid length or conflicting countries. */
    method MergePrefix(country: IsoCountryId, address: Addr, len: nat) returns (ok: bool)
      requires Valid() && |address| == octets
      modifies this
      ensures Valid()
      ensures ok <==> len <= 8 * octets && Merge(old(table), country, PrefixOf(address, len)).Some?
      ensures ok ==> table == Merge(old(table), country, PrefixOf(address, len)).value
    {
      var addr := new bv8[octets](i requires 0 <= i < octets => address[i]);
      assert addr[..] == address;
      ok := CanonicalizePrefix(addr, len);
      if ok { ok := MergeUpwards(country, addr, len, PrefixOf(address, len)); }
    }

    /** Merges with the sibling as long as there is one, then inserts. */
    method MergeUpwards(country: IsoCountryId, addr: array<bv8>, len: nat, ghost base: Prefix) returns (ok: bool)
      requires Valid() && len == |base| <= 8 * octets && addr[..] == AddrOf(base, octets)
      modifies this, addr
      ensures Valid() && (ok <==> Merge(old(table), country, base).Some?)
      ensures ok ==> table == Merge(old(table), country, base).value
    {
      var prefixlen := len;
      ghost var p := base;
      ghost var goal := Merge(table, country, p);
      while prefixlen > 0
        invariant Valid()
        invariant prefixlen == |p| <= 8 * octets
        invariant addr[..] == AddrOf(p, octets)
        invariant Merge(table, country, p) == goal
      {
        var bit := prefixlen - 1;
        var merged := EraseSibling(country, Flipped(addr[..], bit), prefixlen, p);
        if !merged { break; }
        ToParent(addr, bit, p);
        p := Parent(p);
        prefixlen := prefixlen - 1;
      }
      ok := TryEmplace(country, addr[..], prefixlen, p);
    }

    /** Clears the last network bit of the base address of `p`. */
    method ToParent(addr: array<bv8>, bit: nat, ghost p: Prefix)
      requires bit + 1 == |p| <= 8 * octets && addr[..] == AddrOf(p, octets)
      modifies addr
      ensures addr[..] == AddrOf(Parent(p), octets)
    {
      SetPrefixBit(addr, bit, false);
      ParentAddress(p, octets, addr[..]);
    }

    /** Removes the sibling of prefix `p` when it belongs to the same country. */
    method EraseSibling(country: IsoCountryId, sibling: Addr, prefixlen: nat, ghost p: Prefix) returns (merged: bool)
      requires Valid() && 0 < |p| == prefixlen <= 8 * octets
      requires sibling == Flipped(AddrOf(p, octets), |p| - 1)
      modifies this
      ensures Valid()
      ensures merged <==> Sibling(p) in old(table) && old(table)[Sibling(p)] == country
      ensures table == if merged then old(table) - {Sibling(p)} else old(table)
    {
      SiblingAddress(p, octets);
      LookupAgrees(buckets, table, octets, Sibling(p));
      merged := sibling in buckets[prefixlen] && buckets[prefixlen][sibling] == country;
      if merged {
        EraseAgrees(buckets, table, octets, Sibling(p));
        buckets := buckets[prefixlen := buckets[prefixlen] - {sibling}];
        table := table - {Sibling(p)};
      }
    }

    method TryEmplace(country: IsoCountryId, addr: Addr, prefixlen: nat, ghost p: Prefix) returns (ok: bool)
      requires Valid() && |p| == prefixlen <= 8 * octets && addr == AddrOf(p, octets)
      modifies this
      ensures Valid()
      ensures ok <==> !(p in old(table) && old(table)[p] != country)
      ensures table == if ok then old(table)[p := country] else old(table)
    {
      LookupAgrees(buckets, table, octets, p);
      if addr in buckets[prefixlen] {
        ok := buckets[prefixlen][addr] == country;
        if ok { assert table[p := country] == table; }
      } else {
        InsertAgrees(buckets, table, octets, p, country);
        buckets := buckets[prefixlen := buckets[prefixlen][addr := country]];
        table := table[p := country];
        ok := true;
      }
    }

    method AddCountryPrefix(entry: Entry, address: Addr, len: nat) returns (ok: bool)
      requires Valid() && |address| == octets && len <= 8 * octets
      requires Canonical(table, 8 * octets) && Disjoint(table, PrefixOf(address, len))
      modifies this
      ensures Valid()
      ensures ok <==> !ReadCountry(entry).Unreadable?
      ensures ok ==> Canonical(table, 8 * octets)
      ensures ok ==> forall x, c :: |x| == 8 * octets ==>
        (Covers(table, x, c) <==>
          Covers(old(table), x, c) || (Contains(PrefixOf(address, len), x) && ReadCountry(entry) == Code(c)))
    {
      var country := ReadCountry(entry);
      match country {
        case Absent => ok := true;
        case Unreadable => ok := false;
        case Code(c) =>
          MergeDisjoint(table, c, PrefixOf(address, len), 8 * octets);
          ok := MergePrefix(c, address, len);
      }
    }

    /** Walks the tree from node `n`; false is a thrown exception. */
    method WalkSearchTree(db: Mmdb, n: nat, prefix: Addr, depth: nat, skip: Option<nat>) returns (ok: bool)
      requires Valid() && |prefix| == octets && depth <= 8 * octets
      requires Canonical(table, 8 * octets) && Disjoint(table, PrefixOf(prefix, depth))
      modifies this
      ensures Valid()
      ensures ok <==> depth < 8 * octets && NodeOk(db, n, depth, 8 * octets, skip)
      ensures ok ==> Canonical(table, 8 * octets)
      ensures ok ==> AddsNode(old(table), table, 8 * octets, db, n, PrefixOf(prefix, depth), skip)
      decreases 8 * octets - depth, 1
    {
      if depth >= 8 * octets || n >= |db.nodes| {
        return false;
      }
      ghost var pre := PrefixOf(prefix, depth);
      ghost var m0 := table;
      HalfDisjoint(table, pre, false, 8 * octets);
      ok := VisitRecord(db, db.nodes[n].left, prefix, depth, false, skip);
      if !ok { return; }
      ghost var m1 := table;
      LeftLeavesRightFree(m0, m1, 8 * octets, db, db.nodes[n].left, pre, skip);
      ok := VisitRecord(db, db.nodes[n].right, prefix, depth, true, skip);
      if !ok { return; }
      BothRecords(m0, m1, table, 8 * octets, db, n, pre, skip);
    }

    method VisitRecord(db: Mmdb, r: Record, prefix: Addr, depth: nat, right: bool, skip: Option<nat>)
      returns (ok: bool)
      requires Valid() && |prefix| == octets && depth < 8 * octets
      requires Canonical(table, 8 * octets) && Disjoint(table, PrefixOf(prefix, depth) + [right])
      modifies this
      ensures Valid()
      ensures ok <==> RecordOk(db, r, depth + 1, 8 * octets, skip)
      ensures ok ==> Canonical(table, 8 * octets)
      ensures ok ==> AddsRecord(old(table), table, 8 * octets, db, r, PrefixOf(prefix, depth) + [right], skip)
      decreases 8 * octets - depth, 0
    {
      var child := ChildPrefix(prefix, depth, right);
      match r {
        case Empty => ok := true;
        case Data(e) => ok := AddCountryPrefix(e, child, depth + 1);
        case SearchNode(n) =>
          if n > UINT32_MAX {
            ok := false;
          } else if skip == Some(n) {
            ok := true;
          } else {
            ok := WalkSearchTree(db, n, child, depth + 1, skip);
          }
        case Invalid => ok := false;
      }
    }

    /** Imports the IPv4 part of a database into empty buckets: the table then holds exactly the maximal
        single-country blocks of what the search tree answers. */
    method ImportIpv4Tree(db: Mmdb) returns (ok: bool)
      requires Valid() && octets == 4 && table == map[]
      modifies this
      ensures Valid()
      ensures ok <==> Ipv4WellFormed(db)
      ensures ok ==> Canonical(table, 32)
      ensures ok ==> forall x, c :: |x| == 32 ==> (Covers(table, x, c) <==> Ipv4Lookup(db, x) == Some(c))
      ensures ok ==> MaximalBlocks(table, 32, Ipv4Answers(db))
    {
      ok := WalkIpv4(db);
      Ipv4Paths(db);
      if ok { AnswersAreBlocks(table, 32, Ipv4Answers(db)); }
    }

    method WalkIpv4(db: Mmdb) returns (ok: bool)
      requires Valid() && octets == 4 && table == map[]
      modifies this
      ensures Valid()
      ensures ok <==> Ipv4Importable(db)
      ensures ok ==> Canonical(table, 32)
      ensures ok ==> forall x, c :: |x| == 32 ==> (Covers(table, x, c) <==> Ipv4Walked(db, x) == Some(c))
    {
      var zero := seq(4, _ => 0);
      assert PrefixOf(zero, 0) == [];
      if db.ipVersion == 4 {
        ok := WalkSearchTree(db, 0, zero, 0, None);
      } else if db.start.nodeValue < |db.nodes| {
        if db.start.netmask == 96 {
          ok := WalkSearchTree(db, db.start.nodeValue, zero, 0, None);
        } else {
          ok := false;
        }
      } else if db.start.nodeValue == |db.nodes| {
        ok := true;
      } else {
        match db.rootLookup {
          case LookupFailed => ok := false;
          case NotFound => ok := true;
          case Found(e) => ok := AddCountryPrefix(e, zero, 0);
        }
      }
    }

    /** Imports the IPv6 part, skipping every alias of the IPv4 subtree. */
    method ImportIpv6Tree(db: Mmdb) returns (ok: bool)
      requires Valid() && octets == 16 && table == map[]
      modifies this
      ensures Valid()
      ensures ok <==> Ipv6WellFormed(db)
      ensures ok ==> Canonical(table, 128)
      ensures ok ==> forall x, c :: |x| == 128 ==> (Covers(table, x, c) <==> Ipv6Lookup(db, x) == Some(c))
      ensures ok ==> MaximalBlocks(table, 128, Ipv6Answers(db))
    {
      if db.ipVersion != 6 {
        ok := true;
      } else {
        var zero := seq(16, _ => 0);
        assert PrefixOf(zero, 0) == [];
        ok := WalkSearchTree(db, 0, zero, 0, Ipv4Subtree(db));
      }
      Ipv6Paths(db);
      if ok { AnswersAreBlocks(table, 128, Ipv6Answers(db)); }
    }
  }
}
