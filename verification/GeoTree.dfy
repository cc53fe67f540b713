/** The search tree of a MaxMind database: how the import walks it, and what each address finds on its own
    path through it. */
module GeoTree {
  import opened Basics
  import opened GeoPrefix

  /** Outcome of reading one ISO code path of a data entry. */
  datatype IsoRead = Absent | Unreadable | Code(country: IsoCountryId)

  /** The two code paths of a data entry: geolocation country and registered country. */
  datatype Entry = Entry(country: IsoRead, registered: IsoRead)

  datatype Record = Empty | Data(entry: Entry) | SearchNode(number: nat) | Invalid

  datatype Node = Node(left: Record, right: Record)

  /** Where the IPv4 subtree starts in an IPv6 database. */
  datatype Ipv4Start = Ipv4Start(nodeValue: nat, netmask: nat)

  /** Outcome of the library lookup of 0.0.0.0. */
  datatype RootLookup = LookupFailed | NotFound | Found(entry: Entry)

  datatype Mmdb = Mmdb(nodes: seq<Node>, ipVersion: nat, start: Ipv4Start, rootLookup: RootLookup)

  /** The registered country is used only when the geolocation country is absent. */
  function ReadCountry(e: Entry): IsoRead {
    if e.country.Absent? then e.registered else e.country
  }

  /** The reference lookup: follow the bits of `x` from record `r` at bit `depth`. */
  function FollowRecord(db: Mmdb, r: Record, x: Prefix, depth: nat, skip: Option<nat>): Option<IsoCountryId>
    requires depth <= |x|
    decreases |x| - depth, 2
  {
    match r
    case Data(e) => if ReadCountry(e).Code? then Some(ReadCountry(e).country) else None
    case SearchNode(n) => if skip == Some(n) || depth == |x| then None else Follow(db, n, x, depth, skip)
    case _ => None
  }

  function Follow(db: Mmdb, n: nat, x: Prefix, depth: nat, skip: Option<nat>): Option<IsoCountryId>
    requires depth < |x|
    decreases |x| - depth, 1
  {
    if n >= |db.nodes| then None
    else FollowRecord(db, if x[depth] then db.nodes[n].right else db.nodes[n].left, x, depth + 1, skip)
  }

  /** No record met below `r` is malformed: the tree is no deeper than the address, every node
      number is readable, every record type known, every country code readable. */
  predicate RecordOk(db: Mmdb, r: Record, depth: nat, bits: nat, skip: Option<nat>)
    requires depth <= bits
    decreases bits - depth, 2
  {
    match r
    case Empty => true
    case Data(e) => !ReadCountry(e).Unreadable?
    case SearchNode(n) => n <= UINT32_MAX && (skip == Some(n) || (depth < bits && NodeOk(db, n, depth, bits, skip)))
    case Invalid => false
  }

  predicate NodeOk(db: Mmdb, n: nat, depth: nat, bits: nat, skip: Option<nat>)
    requires depth < bits
    decreases bits - depth, 1
  {
    && n < |db.nodes|
    && RecordOk(db, db.nodes[n].left, depth + 1, bits, skip)
    && RecordOk(db, db.nodes[n].right, depth + 1, bits, skip)
  }

  /** The node at which the IPv6 walk stops. */
  function Ipv4Subtree(db: Mmdb): Option<nat> {
    if db.start.netmask == 96 && db.start.nodeValue < |db.nodes| then Some(db.start.nodeValue) else None
  }

  /** What the IPv4 walk finds, and whether it succeeds. */
  function Ipv4Walked(db: Mmdb, x: Prefix): Option<IsoCountryId> {
    if |x| != 32 then None
    else if db.ipVersion == 4 then Follow(db, 0, x, 0, None)
    else if db.start.nodeValue < |db.nodes| then Follow(db, db.start.nodeValue, x, 0, None)
    else if db.start.nodeValue > |db.nodes| && db.rootLookup.Found? && ReadCountry(db.rootLookup.entry).Code? then
      Some(ReadCountry(db.rootLookup.entry).country)
    else None
  }

  predicate Ipv4Importable(db: Mmdb) {
    if db.ipVersion == 4 then NodeOk(db, 0, 0, 32, None)
    else if db.start.nodeValue < |db.nodes| then
      db.start.netmask == 96 && NodeOk(db, db.start.nodeValue, 0, 32, None)
    else if db.start.nodeValue == |db.nodes| then true
    else match db.rootLookup
      case LookupFailed => false
      case NotFound => true
      case Found(e) => !ReadCountry(e).Unreadable?
  }

  // ----- the path of one address

  /** The records the bits of `x` lead through from node `n` on, none of them skipped. */
  function Path(db: Mmdb, n: nat, x: Prefix, depth: nat): seq<Record>
    requires depth < |x|
    decreases |x| - depth
  {
    if n >= |db.nodes| then []
    else
      var r := if x[depth] then db.nodes[n].right else db.nodes[n].left;
      [r] + if r.SearchNode? && depth + 1 < |x| then Path(db, r.number, x, depth + 1) else []
  }

  /** The country of a record: the one of its location, or the registered one if there is no location. */
  function CountryOf(r: Record): Option<IsoCountryId> {
    match r
    case Data(Entry(Code(c), _)) => Some(c)
    case Data(Entry(Absent, Code(c))) => Some(c)
    case _ => None
  }

  /** A path leads to the country of its last record. */
  function Answer(path: seq<Record>): Option<IsoCountryId> {
    if path == [] then None else CountryOf(path[|path| - 1])
  }

  /** Neither of the codes that count is unreadable. */
  predicate Readable(e: Entry) {
    e.country != Unreadable && (e.country == Absent ==> e.registered != Unreadable)
  }

  /** A path with readable node numbers that reaches an empty or a readable record, or meets `stop`. */
  predicate WellFormed(path: seq<Record>, stop: Option<nat>) {
    path != [] &&
    match path[0]
    case Empty => true
    case Data(e) => Readable(e)
    case SearchNode(n) => n <= UINT32_MAX && (stop == Some(n) || WellFormed(path[1..], stop))
    case Invalid => false
  }

  predicate Meets(path: seq<Record>, stop: Option<nat>) {
    stop.Some? && SearchNode(stop.value) in path
  }

  lemma PathStep(db: Mmdb, n: nat, x: Prefix, depth: nat)
    requires depth < |x| && n < |db.nodes|
    ensures
      var r := if x[depth] then db.nodes[n].right else db.nodes[n].left;
      var path := Path(db, n, x, depth);
      && path != [] && path[0] == r
      && path[1..] == if r.SearchNode? && depth + 1 < |x| then Path(db, r.number, x, depth + 1) else []
  {
  }

  /** The walk answers an address as its path does, except that nothing is found beyond the node where the
      walk stops. */
  lemma {:induction false} FollowIsPath(db: Mmdb, n: nat, x: Prefix, depth: nat, stop: Option<nat>)
    requires depth < |x|
    ensures Follow(db, n, x, depth, stop) ==
            if Meets(Path(db, n, x, depth), stop) then None else Answer(Path(db, n, x, depth))
    decreases |x| - depth
  {
    if n < |db.nodes| {
      PathStep(db, n, x, depth);
      var r := if x[depth] then db.nodes[n].right else db.nodes[n].left;
      var path := Path(db, n, x, depth);
      assert path == [r] + path[1..];
      if r.SearchNode? && depth + 1 < |x| {
        FollowIsPath(db, r.number, x, depth + 1, stop);
        assert path[1..] != [] ==> path[|path| - 1] == path[1..][|path[1..]| - 1];
      }
    }
  }

  /** Only the bits from `depth` on decide. */
  lemma {:induction false} PathSame(db: Mmdb, n: nat, x: Prefix, y: Prefix, depth: nat)
    requires depth < |x| == |y| && x[depth..] == y[depth..]
    ensures Path(db, n, x, depth) == Path(db, n, y, depth)
    decreases |x| - depth
  {
    assert x[depth] == x[depth..][0] && y[depth] == y[depth..][0];
    if n < |db.nodes| && depth + 1 < |x| {
      var r := if x[depth] then db.nodes[n].right else db.nodes[n].left;
      assert x[depth + 1..] == x[depth..][1..] && y[depth + 1..] == y[depth..][1..];
      if r.SearchNode? { PathSame(db, r.number, x, y, depth + 1); }
    }
  }

  ghost predicate AllWellFormed(db: Mmdb, n: nat, depth: nat, bits: nat, stop: Option<nat>)
    requires depth < bits
  {
    forall x: Prefix :: |x| == bits ==> WellFormed(Path(db, n, x, depth), stop)
  }

  /** The walk succeeds exactly when the path of every address is well formed. */
  lemma {:induction false} NodeOkIff(db: Mmdb, n: nat, depth: nat, bits: nat, stop: Option<nat>)
    requires depth < bits
    ensures NodeOk(db, n, depth, bits, stop) <==> AllWellFormed(db, n, depth, bits, stop)
    decreases bits - depth, 2
  {
    var zero: Prefix := seq(bits, _ => false);
    if n >= |db.nodes| {
      assert Path(db, n, zero, depth) == [];
      assert !WellFormed(Path(db, n, zero, depth), stop);
    } else {
      RecordOkIff(db, n, false, depth, bits, stop);
      RecordOkIff(db, n, true, depth, bits, stop);
    }
  }

  /** One record of a node, and the addresses that take it. */
  lemma RecordOkIff(db: Mmdb, n: nat, right: bool, depth: nat, bits: nat, stop: Option<nat>)
    requires depth < bits && n < |db.nodes|
    ensures RecordOk(db, if right then db.nodes[n].right else db.nodes[n].left, depth + 1, bits, stop) <==>
            forall x: Prefix :: |x| == bits && x[depth] == right ==> WellFormed(Path(db, n, x, depth), stop)
    decreases bits - depth, 1
  {
    var r := if right then db.nodes[n].right else db.nodes[n].left;
    forall x: Prefix | |x| == bits && x[depth] == right
      ensures RecordOk(db, r, depth + 1, bits, stop) ==> WellFormed(Path(db, n, x, depth), stop)
    {
      PathStep(db, n, x, depth);
      if r.SearchNode? && depth + 1 < bits { NodeOkIff(db, r.number, depth + 1, bits, stop); }
    }
    if !RecordOk(db, r, depth + 1, bits, stop) {
      var x := Malformed(db, n, right, depth, bits, stop);
    }
  }

  /** A malformed record is on the path of some address. */
  lemma Malformed(db: Mmdb, n: nat, right: bool, depth: nat, bits: nat, stop: Option<nat>) returns (x: Prefix)
    requires depth < bits && n < |db.nodes|
    requires !RecordOk(db, if right then db.nodes[n].right else db.nodes[n].left, depth + 1, bits, stop)
    ensures |x| == bits && x[depth] == right && !WellFormed(Path(db, n, x, depth), stop)
    decreases bits - depth, 0
  {
    var r := if right then db.nodes[n].right else db.nodes[n].left;
    x := seq(bits, _ => right);
    if r.SearchNode? && depth + 1 < bits && r.number <= UINT32_MAX && stop != Some(r.number) {
      NodeOkIff(db, r.number, depth + 1, bits, stop);
      var y: Prefix :| |y| == bits && !WellFormed(Path(db, r.number, y, depth + 1), stop);
      x := y[depth := right];
      assert x[depth + 1..] == y[depth + 1..];
      PathSame(db, r.number, x, y, depth + 1);
    }
    PathStep(db, n, x, depth);
  }

  // ----- what the database answers

  /** IPv4: from the root of an IPv4 database, or from the IPv4 start node of an IPv6 one; a start beyond
      the nodes stands for one record for all addresses, which the library looks up. */
  function Ipv4Lookup(db: Mmdb, x: Prefix): Option<IsoCountryId> {
    if |x| != 32 then None
    else if db.ipVersion == 4 then Answer(Path(db, 0, x, 0))
    else if db.start.nodeValue < |db.nodes| then Answer(Path(db, db.start.nodeValue, x, 0))
    else if db.start.nodeValue > |db.nodes| && db.rootLookup.Found? then CountryOf(Data(db.rootLookup.entry))
    else None
  }

  /** IPv6: nothing for an address whose path meets the IPv4 start node below the root, if that node lies
      at depth 96; any other address is answered by its path. */
  function Ipv6Lookup(db: Mmdb, x: Prefix): Option<IsoCountryId> {
    if db.ipVersion != 6 || |x| != 128 then None
    else if db.start.netmask == 96 && db.start.nodeValue < |db.nodes| && SearchNode(db.start.nodeValue) in Path(db, 0, x, 0)
    then None
    else Answer(Path(db, 0, x, 0))
  }

  function Ipv4Answers(db: Mmdb): Prefix -> Option<IsoCountryId> { x => Ipv4Lookup(db, x) }

  function Ipv6Answers(db: Mmdb): Prefix -> Option<IsoCountryId> { x => Ipv6Lookup(db, x) }

  ghost predicate Ipv4WellFormed(db: Mmdb) {
    if db.ipVersion == 4 then AllWellFormed(db, 0, 0, 32, None)
    else if db.start.nodeValue < |db.nodes| then
      db.start.netmask == 96 && AllWellFormed(db, db.start.nodeValue, 0, 32, None)
    else if db.start.nodeValue == |db.nodes| then true
    else db.rootLookup == NotFound || (db.rootLookup.Found? && Readable(db.rootLookup.entry))
  }

  /** Every path is well formed, up to the IPv4 start node where it meets that. */
  ghost predicate Ipv6WellFormed(db: Mmdb) {
    db.ipVersion == 6 ==>
      AllWellFormed(db, 0, 0, 128,
        if db.start.netmask == 96 && db.start.nodeValue < |db.nodes| then Some(db.start.nodeValue) else None)
  }

  /** What the walks find is what the paths answer. */
  lemma Ipv4Paths(db: Mmdb)
    ensures forall x: Prefix :: Ipv4Walked(db, x) == Ipv4Lookup(db, x)
    ensures Ipv4Importable(db) <==> Ipv4WellFormed(db)
  {
    NodeOkIff(db, 0, 0, 32, None);
    NodeOkIff(db, db.start.nodeValue, 0, 32, None);
    forall x: Prefix ensures Ipv4Walked(db, x) == Ipv4Lookup(db, x) {
      if |x| == 32 {
        FollowIsPath(db, 0, x, 0, None);
        FollowIsPath(db, db.start.nodeValue, x, 0, None);
      }
    }
  }

  lemma Ipv6Paths(db: Mmdb)
    ensures forall x: Prefix :: |x| == 128 && db.ipVersion == 6 ==> Follow(db, 0, x, 0, Ipv4Subtree(db)) == Ipv6Lookup(db, x)
    ensures Ipv6WellFormed(db) <==> db.ipVersion != 6 || NodeOk(db, 0, 0, 128, Ipv4Subtree(db))
  {
    NodeOkIff(db, 0, 0, 128, Ipv4Subtree(db));
    forall x: Prefix | |x| == 128 && db.ipVersion == 6
      ensures Follow(db, 0, x, 0, Ipv4Subtree(db)) == Ipv6Lookup(db, x)
    {
      FollowIsPath(db, 0, x, 0, Ipv4Subtree(db));
    }
  }
}
