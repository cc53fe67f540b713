/** Prefix tables as abstract values: a prefix is a bit string, a table maps prefixes to countries.
    The per-length buckets of the importer are one such table, split by prefix length. */
module GeoPrefix {
  import opened Basics

  /** ISO 3166 two-letter country identifier. */
  datatype IsoCountryId = IsoCountryId(code: string)

  type Prefix = seq<bool>
  type Table = map<Prefix, IsoCountryId>

  /** Block `x` lies inside block `p`: the bits of `p` are the first bits of `x`. */
  predicate Contains(p: Prefix, x: Prefix) {
    |p| <= |x| && x[..|p|] == p
  }

  /** The prefix that differs from `p` in its last bit only. */
  function Sibling(p: Prefix): Prefix
    requires |p| > 0
  {
    p[..|p| - 1] + [!p[|p| - 1]]
  }

  function Parent(p: Prefix): Prefix
    requires |p| > 0
  {
    p[..|p| - 1]
  }

  /** Address `x` lies in some prefix that the table gives to `c`. */
  ghost predicate Covers(m: Table, x: Prefix, c: IsoCountryId) {
    exists p :: p in m && Contains(p, x) && m[p] == c
  }

  ghost predicate Antichain(m: Table) {
    forall p, q :: p in m && q in m && Contains(p, q) ==> p == q
  }

  ghost predicate NoSiblings(m: Table) {
    forall p :: p in m && |p| > 0 && Sibling(p) in m ==> m[Sibling(p)] != m[p]
  }

  ghost predicate Bounded(m: Table, bits: nat) {
    forall p :: p in m ==> |p| <= bits
  }

  /** Pairwise disjoint prefixes, none longer than an address, no mergeable pair left. */
  ghost predicate Canonical(m: Table, bits: nat) {
    Bounded(m, bits) && Antichain(m) && NoSiblings(m)
  }

  /** `p` overlaps no prefix of the table. */
  ghost predicate Disjoint(m: Table, p: Prefix) {
    forall q :: q in m ==> !Contains(p, q) && !Contains(q, p)
  }

  /** Insertion with cascading sibling merge; None is the conflicting-country failure. */
  function Merge(m: Table, c: IsoCountryId, p: Prefix): Option<Table>
    decreases |p|
  {
    if |p| > 0 && Sibling(p) in m && m[Sibling(p)] == c then
      Merge(m - {Sibling(p)}, c, Parent(p))
    else if p in m && m[p] != c then None
    else Some(m[p := c])
  }

  lemma ContainsTransitive(p: Prefix, q: Prefix, x: Prefix)
    requires Contains(p, q) && Contains(q, x)
    ensures Contains(p, x)
  {
    assert x[..|p|] == x[..|q|][..|p|];
  }

  /** A block is its two halves. */
  lemma ParentIsBothHalves(p: Prefix, x: Prefix)
    requires |p| > 0
    ensures Contains(Parent(p), x) && |p| <= |x| <==> Contains(p, x) || Contains(Sibling(p), x)
  {
    var s := Sibling(p);
    assert p == Parent(p) + [p[|p| - 1]] && s == Parent(p) + [s[|p| - 1]];
    if |p| <= |x| {
      var y := x[..|p|];
      assert x[..|p| - 1] == y[..|p| - 1];
      assert y == y[..|p| - 1] + [y[|p| - 1]];
      assert p[..|p| - 1] == s[..|p| - 1] == Parent(p);
      assert y[|p| - 1] == p[|p| - 1] || y[|p| - 1] == s[|p| - 1];
      if Contains(Parent(p), x) { assert y == p || y == s; }
    }
  }

  lemma ParentStaysDisjoint(m: Table, p: Prefix)
    requires Antichain(m) && Disjoint(m, p)
    requires |p| > 0 && Sibling(p) in m
    ensures Disjoint(m - {Sibling(p)}, Parent(p))
  {
    var s := Sibling(p);
    assert Contains(Parent(p), p);
    forall q | q in m - {s}
      ensures !Contains(Parent(p), q) && !Contains(q, Parent(p))
    {
      ParentIsBothHalves(p, q);
      assert Contains(q, Parent(p)) ==> Contains(q, p) by {
        if Contains(q, Parent(p)) { ContainsTransitive(q, Parent(p), p); }
      }
    }
  }

  /** Inserting a prefix that overlaps nothing never conflicts, keeps the table canonical,
      and adds exactly the addresses of that prefix. */
  lemma {:induction false} MergeDisjoint(m: Table, c: IsoCountryId, p: Prefix, bits: nat)
    requires Canonical(m, bits) && Disjoint(m, p) && |p| <= bits
    ensures Merge(m, c, p).Some?
    ensures Canonical(Merge(m, c, p).value, bits)
    ensures forall x, d :: |x| == bits ==>
      (Covers(Merge(m, c, p).value, x, d) <==> Covers(m, x, d) || (Contains(p, x) && d == c))
    decreases |p|
  {
    if |p| > 0 && Sibling(p) in m && m[Sibling(p)] == c {
      var s := Sibling(p);
      ParentStaysDisjoint(m, p);
      MergeDisjoint(m - {s}, c, Parent(p), bits);
      var r := Merge(m - {s}, c, Parent(p)).value;
      forall x, d | |x| == bits
        ensures Covers(r, x, d) <==> Covers(m, x, d) || (Contains(p, x) && d == c)
      {
        ParentIsBothHalves(p, x);
        CoversWithout(m, s, x, d);
      }
    } else {
      MergeStops(m, c, p, bits);
    }
  }

  lemma CoversWithout(m: Table, s: Prefix, x: Prefix, d: IsoCountryId)
    requires s in m
    ensures Covers(m, x, d) <==> Covers(m - {s}, x, d) || (Contains(s, x) && d == m[s])
  {
    if Covers(m, x, d) {
      var p :| p in m && Contains(p, x) && m[p] == d;
      assert p == s || p in m - {s};
    }
  }

  lemma SiblingInvolution(q: Prefix)
    requires |q| > 0
    ensures Sibling(q) != q && |Sibling(q)| == |q| && Sibling(Sibling(q)) == q
  {
    assert Sibling(q)[|q| - 1] != q[|q| - 1];
  }

  lemma InsertNoSiblings(m: Table, c: IsoCountryId, p: Prefix)
    requires NoSiblings(m) && p !in m
    requires !(|p| > 0 && Sibling(p) in m && m[Sibling(p)] == c)
    ensures NoSiblings(m[p := c])
  {
    var r := m[p := c];
    forall q | q in r && |q| > 0 && Sibling(q) in r ensures r[Sibling(q)] != r[q] {
      SiblingInvolution(q);
    }
  }

  lemma MergeStops(m: Table, c: IsoCountryId, p: Prefix, bits: nat)
    requires Canonical(m, bits) && Disjoint(m, p) && |p| <= bits
    requires !(|p| > 0 && Sibling(p) in m && m[Sibling(p)] == c)
    ensures p !in m && Canonical(m[p := c], bits)
    ensures forall x, d :: Covers(m[p := c], x, d) <==> Covers(m, x, d) || (Contains(p, x) && d == c)
  {
    var r := m[p := c];
    assert Contains(p, p);
    assert m == r - {p};
    InsertNoSiblings(m, c, p);
    forall x, d ensures Covers(r, x, d) <==> Covers(m, x, d) || (Contains(p, x) && d == c) {
      CoversWithout(r, p, x, d);
    }
  }

  /** A block none of whose addresses is covered overlaps nothing. */
  lemma UncoveredIsDisjoint(m: Table, p: Prefix, bits: nat)
    requires Bounded(m, bits) && |p| <= bits
    requires forall x, c :: |x| == bits && Contains(p, x) ==> !Covers(m, x, c)
    ensures Disjoint(m, p)
  {
    forall q | q in m ensures !Contains(p, q) && !Contains(q, p) {
      var x := q + seq(bits - |q|, _ => false);
      var y := p + seq(bits - |p|, _ => false);
      assert Contains(q, x) && Covers(m, x, m[q]);
      assert Contains(p, y) && !Covers(m, y, m[q]);
      assert Contains(p, q) ==> Contains(p, x) by {
        if Contains(p, q) { ContainsTransitive(p, q, x); }
      }
      assert Contains(q, p) ==> Contains(q, y) by {
        if Contains(q, p) { ContainsTransitive(q, p, y); }
      }
    }
  }

  lemma CommonAddressNests(p: Prefix, q: Prefix, x: Prefix)
    requires Contains(p, x)
    ensures Contains(q, x) ==> Contains(p, q) || Contains(q, p)
  {
    if Contains(q, x) {
      if |q| <= |p| {
        assert x[..|p|][..|q|] == x[..|q|];
      } else {
        assert x[..|q|][..|p|] == x[..|p|];
      }
    }
  }

  /** No address of a block that overlaps nothing is covered. */
  lemma DisjointIsUncovered(m: Table, p: Prefix, x: Prefix, c: IsoCountryId)
    requires Disjoint(m, p) && Contains(p, x)
    ensures !Covers(m, x, c)
  {
    forall q | q in m ensures !Contains(q, x) {
      CommonAddressNests(p, q, x);
    }
  }

  /** Every address of block `p` belongs to `c`. */
  ghost predicate Uniform(m: Table, bits: nat, p: Prefix, c: IsoCountryId) {
    |p| <= bits && forall x :: |x| == bits && Contains(p, x) ==> Covers(m, x, c)
  }

  /** `p` is a largest block whose addresses all belong to `c`. */
  ghost predicate Maximal(m: Table, bits: nat, p: Prefix, c: IsoCountryId) {
    Uniform(m, bits, p, c) && (|p| > 0 ==> !Uniform(m, bits, Parent(p), c))
  }

  /** In a canonical table a single-country block lies inside one entry. */
  lemma {:induction false} UniformHasEntry(m: Table, bits: nat, q: Prefix, c: IsoCountryId) returns (p: Prefix)
    requires Canonical(m, bits) && Uniform(m, bits, q, c)
    ensures p in m && Contains(p, q) && m[p] == c
    decreases bits - |q|
  {
    if |q| == bits {
      assert Contains(q, q) && Covers(m, q, c);
      p :| p in m && Contains(p, q) && m[p] == c;
    } else {
      var l, r := q + [false], q + [true];
      HalfUniform(m, bits, q, c, l);
      HalfUniform(m, bits, q, c, r);
      var p0 := UniformHasEntry(m, bits, l, c);
      var p1 := UniformHasEntry(m, bits, r, c);
      assert Sibling(l) == r;
      assert !(p0 == l && p1 == r);
      p := if p0 == l then p1 else p0;
      assert q[..|p|] == (if p0 == l then r else l)[..|p|];
    }
  }

  lemma HalfUniform(m: Table, bits: nat, q: Prefix, c: IsoCountryId, h: Prefix)
    requires Uniform(m, bits, q, c) && Contains(q, h) && |h| <= bits
    ensures Uniform(m, bits, h, c)
  {
    forall x | |x| == bits && Contains(h, x) ensures Covers(m, x, c) {
      ContainsTransitive(q, h, x);
    }
  }

  /** A single-country block is an entry, or its parent is a single-country block too. */
  lemma EntryOrWider(m: Table, bits: nat, p: Prefix, c: IsoCountryId)
    requires Canonical(m, bits) && Uniform(m, bits, p, c)
    ensures (p in m && m[p] == c) || (|p| > 0 && Uniform(m, bits, Parent(p), c))
  {
    var q := UniformHasEntry(m, bits, p, c);
    if q != p {
      assert q == p[..|p| - 1][..|q|];
      HalfUniform(m, bits, q, c, Parent(p));
    }
  }

  /** A block whose parent is a single-country block is not an entry of that country. */
  lemma WiderExcludesEntry(m: Table, bits: nat, p: Prefix, c: IsoCountryId)
    requires Canonical(m, bits) && |p| > 0 && Uniform(m, bits, Parent(p), c)
    ensures p !in m
  {
    var q := UniformHasEntry(m, bits, Parent(p), c);
    assert Contains(Parent(p), p);
    ContainsTransitive(q, Parent(p), p);
  }

  /** The entries of a canonical table are exactly the maximal single-country blocks. */
  lemma CanonicalIsMaximalBlocks(m: Table, bits: nat, p: Prefix, c: IsoCountryId)
    requires Canonical(m, bits)
    ensures (p in m && m[p] == c) <==> Maximal(m, bits, p, c)
  {
    assert p in m ==> Uniform(m, bits, p, m[p]);
    if |p| > 0 && Uniform(m, bits, Parent(p), c) {
      WiderExcludesEntry(m, bits, p, c);
    } else if Uniform(m, bits, p, c) {
      EntryOrWider(m, bits, p, c);
    }
  }

  /** Two canonical tables with the same address-to-country relation are equal, so the result
      of an import cannot depend on the order in which the leaves were merged. */
  lemma CanonicalUnique(m: Table, n: Table, bits: nat)
    requires Canonical(m, bits) && Canonical(n, bits)
    requires forall x, c :: |x| == bits ==> (Covers(m, x, c) <==> Covers(n, x, c))
    ensures m == n
  {
    forall p | p in m ensures p in n && n[p] == m[p] {
      SameEntry(m, n, bits, p);
    }
    forall p | p in n ensures p in m && m[p] == n[p] {
      SameEntry(n, m, bits, p);
    }
  }

  lemma SameEntry(m: Table, n: Table, bits: nat, p: Prefix)
    requires Canonical(m, bits) && Canonical(n, bits) && p in m
    requires forall x, c :: |x| == bits ==> (Covers(m, x, c) <==> Covers(n, x, c))
    ensures p in n && n[p] == m[p]
  {
    var c := m[p];
    CanonicalIsMaximalBlocks(m, bits, p, c);
    CanonicalIsMaximalBlocks(n, bits, p, c);
    assert Uniform(m, bits, p, c) <==> Uniform(n, bits, p, c);
    if |p| > 0 {
      assert Uniform(m, bits, Parent(p), c) <==> Uniform(n, bits, Parent(p), c);
    }
  }

  /** `f` gives every address of block `p` to `c`. */
  ghost predicate Solid(f: Prefix -> Option<IsoCountryId>, bits: nat, p: Prefix, c: IsoCountryId) {
    |p| <= bits && forall x :: |x| == bits && Contains(p, x) ==> f(x) == Some(c)
  }

  /** A canonical table whose addresses agree with a lookup function holds exactly the maximal
      single-country blocks of that function. */
  lemma TableIsMaximalBlocks(m: Table, bits: nat, f: Prefix -> Option<IsoCountryId>, p: Prefix, c: IsoCountryId)
    requires Canonical(m, bits)
    requires forall x, d :: |x| == bits ==> (Covers(m, x, d) <==> f(x) == Some(d))
    ensures (p in m && m[p] == c) <==> Solid(f, bits, p, c) && (|p| > 0 ==> !Solid(f, bits, Parent(p), c))
  {
    CanonicalIsMaximalBlocks(m, bits, p, c);
    SolidIsUniform(m, bits, f, p, c);
    if |p| > 0 { SolidIsUniform(m, bits, f, Parent(p), c); }
  }

  /** The entries of a table are exactly the maximal single-country blocks of a lookup function. */
  ghost predicate MaximalBlocks(m: Table, bits: nat, f: Prefix -> Option<IsoCountryId>) {
    forall p, c :: (p in m && m[p] == c) <==> Solid(f, bits, p, c) && (|p| > 0 ==> !Solid(f, bits, Parent(p), c))
  }

  lemma AnswersAreBlocks(m: Table, bits: nat, f: Prefix -> Option<IsoCountryId>)
    requires Canonical(m, bits)
    requires forall x, d :: |x| == bits ==> (Covers(m, x, d) <==> f(x) == Some(d))
    ensures MaximalBlocks(m, bits, f)
  {
    forall p, c
      ensures (p in m && m[p] == c) <==> Solid(f, bits, p, c) && (|p| > 0 ==> !Solid(f, bits, Parent(p), c))
    {
      TableIsMaximalBlocks(m, bits, f, p, c);
    }
  }

  lemma SolidIsUniform(m: Table, bits: nat, f: Prefix -> Option<IsoCountryId>, p: Prefix, c: IsoCountryId)
    requires forall x, d :: |x| == bits ==> (Covers(m, x, d) <==> f(x) == Some(d))
    ensures Solid(f, bits, p, c) <==> Uniform(m, bits, p, c)
  {
    if Uniform(m, bits, p, c) {
      forall x | |x| == bits && Contains(p, x) ensures f(x) == Some(c) { assert Covers(m, x, c); }
    }
  }
}
