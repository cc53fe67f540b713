/** Walking a domain name in a DNS message (sections 3.1 and 4.1.4 of RFC 1035). */
module DnsName {
  import opened Basics

  const MAX_NAME: nat := 255
  const MAX_PACKET: nat := 4096
  const LABEL_MAX: nat := 63
  /** Both high bits set. */
  const COMPRESSION: nat := 192

  // ----- names on the wire

  datatype End = Root | Pointer(first: Octet, second: Octet)

  datatype Name = Name(labels: seq<seq<Octet>>, end: End)

  predicate WellFormed(name: Name) {
    && (forall i :: 0 <= i < |name.labels| ==> 1 <= |name.labels[i]| <= LABEL_MAX)
    && (name.end.Pointer? ==> name.end.first >= COMPRESSION)
  }

  function WireLabels(labels: seq<seq<Octet>>): seq<Octet>
    requires forall i :: 0 <= i < |labels| ==> |labels[i]| <= LABEL_MAX
  {
    if labels == [] then [] else [|labels[0]| as Octet] + labels[0] + WireLabels(labels[1..])
  }

  function WireEnd(end: End): seq<Octet> {
    match end case Root => [0] case Pointer(first, second) => [first, second]
  }

  function Wire(name: Name): seq<Octet>
    requires WellFormed(name)
  {
    WireLabels(name.labels) + WireEnd(name.end)
  }

  /** `s` starts with the name, and no label starts beyond 255 octets. */
  ghost predicate Starts(s: seq<Octet>, name: Name, offset: nat) {
    WellFormed(name) && Wire(name) <= s && offset + |WireLabels(name.labels)| <= MAX_NAME
  }

  // ----- the length of the name in front of a buffer

  datatype Length = Bad | Len(n: nat)

  function Shifted(l: Length, n: nat): Length {
    match l case Bad => Bad case Len(m) => Len(n + m)
  }

  lemma ShiftedTwice(l: Length, a: nat, b: nat)
    ensures Shifted(Shifted(l, a), b) == Shifted(l, a + b)
  {
  }

  function NameLength(s: seq<Octet>, offset: nat): Length
    decreases |s|
  {
    if offset > MAX_NAME || s == [] then Bad
    else if s[0] >= COMPRESSION then Len(2)
    else if s[0] > LABEL_MAX || s[0] as int + 1 > |s| then Bad
    else if s[0] == 0 then Len(1)
    else
      var n := s[0] as int + 1;
      Shifted(NameLength(s[n..], offset + n), n)
  }

  /** A length is only found for a name, unless a pointer's second octet is missing. */
  lemma {:induction false} LengthSound(s: seq<Octet>, offset: nat) returns (name: Name)
    requires NameLength(s, offset).Len? && NameLength(s, offset).n <= |s|
    ensures Starts(s, name, offset) && |Wire(name)| == NameLength(s, offset).n
    ensures offset + |Wire(name)| <= MAX_NAME + 2
    decreases |s|
  {
    if s[0] >= COMPRESSION {
      name := Name([], Pointer(s[0], s[1]));
      assert Wire(name) == [s[0], s[1]];
    } else if s[0] == 0 {
      name := Name([], Root);
      assert Wire(name) == [0];
    } else {
      var n := s[0] as int + 1;
      var rest := LengthSound(s[n..], offset + n);
      name := Name([s[1..n]] + rest.labels, rest.end);
      LabelInFront(s, n, rest, offset);
    }
  }

  lemma LabelInFront(s: seq<Octet>, n: nat, rest: Name, offset: nat)
    requires 2 <= n <= LABEL_MAX + 1 && n <= |s| && s[0] == n - 1 && Starts(s[n..], rest, offset + n)
    ensures var name := Name([s[1..n]] + rest.labels, rest.end);
      Starts(s, name, offset) && |Wire(name)| == n + |Wire(rest)|
  {
    Prepend(s[1..n], rest);
    var head, w := [s[0]] + s[1..n], Wire(rest);
    assert s == head + s[n..];
    PrefixBehind(head, w, s[n..]);
  }

  lemma PrefixBehind(head: seq<Octet>, w: seq<Octet>, t: seq<Octet>)
    ensures w <= t <==> head + w <= head + t
  {
    if head + w <= head + t {
      assert forall i :: 0 <= i < |w| ==> w[i] == (head + w)[|head| + i] == (head + t)[|head| + i] == t[i];
    }
  }

  lemma Prepend(text: seq<Octet>, rest: Name)
    requires 1 <= |text| <= LABEL_MAX && WellFormed(rest)
    ensures WellFormed(Name([text] + rest.labels, rest.end))
    ensures WireLabels([text] + rest.labels) == [|text| as Octet] + text + WireLabels(rest.labels)
    ensures Wire(Name([text] + rest.labels, rest.end)) == [|text| as Octet] + text + Wire(rest)
  {
    assert ([text] + rest.labels)[1..] == rest.labels;
  }

  /** The length of every name that starts there is found. */
  lemma {:induction false} LengthComplete(s: seq<Octet>, name: Name, offset: nat)
    requires Starts(s, name, offset)
    ensures NameLength(s, offset) == Len(|Wire(name)|)
    decreases |name.labels|
  {
    if name.labels == [] {
      assert s[0] == Wire(name)[0];
    } else {
      var n, rest := |name.labels[0]| + 1, Name(name.labels[1..], name.end);
      LabelBehind(s, name, offset);
      LengthComplete(s[n..], rest, offset + n);
    }
  }

  lemma LabelBehind(s: seq<Octet>, name: Name, offset: nat)
    requires Starts(s, name, offset) && name.labels != []
    ensures var n, rest := |name.labels[0]| + 1, Name(name.labels[1..], name.end);
      n <= |s| && s[0] == n - 1 && Starts(s[n..], rest, offset + n) && |Wire(name)| == n + |Wire(rest)|
  {
    var text, rest := name.labels[0], Name(name.labels[1..], name.end);
    assert name.labels == [text] + rest.labels;
    Prepend(text, rest);
    var head := [|text| as Octet] + text;
    assert |Wire(name)| == |head| + |Wire(rest)| <= |s|;
    assert s[..|Wire(name)|] == Wire(name);
    assert s == head + s[|head|..];
    PrefixBehind(head, Wire(rest), s[|head|..]);
  }

  /** Only the labels are held to 255 octets: with the pointer that ends it, a name of 257 is accepted. */
  lemma LongNameAccepted() returns (name: Name)
    ensures WellFormed(name) && |Wire(name)| == 257 && NameLength(Wire(name), 0) == Len(257)
  {
    var long, last: seq<Octet> := seq(63, _ => 1), seq(62, _ => 1);
    var end := Name([], Pointer(192, 0));
    Prepend(last, end);
    var a := Name([last] + end.labels, end.end);
    Prepend(long, a);
    var b := Name([long] + a.labels, a.end);
    Prepend(long, b);
    var c := Name([long] + b.labels, b.end);
    Prepend(long, c);
    name := Name([long] + c.labels, c.end);
    LengthComplete(Wire(name), name, 0);
  }

  // ----- the walk

  datatype Step = Continue | Found | NotFound

  /** Length of the name part at `offset` into the name at `pos`. */
  function LengthAt(data: seq<Octet>, pos: nat, offset: nat): Length {
    if pos + offset <= |data| then NameLength(data[pos + offset..], offset) else Bad
  }

  method ProcessLabel(data: seq<Octet>, pos: nat, offset: nat) returns (r: Step, next: nat)
    requires pos <= |data|
    ensures next >= offset
    ensures r == NotFound ==> LengthAt(data, pos, offset) == Bad
    ensures r == Found ==> LengthAt(data, pos, offset) == Len(next - offset)
    ensures r == Continue ==> offset + 2 <= next && offset <= MAX_NAME
    ensures r == Continue ==> LengthAt(data, pos, offset) == Shifted(LengthAt(data, pos, next), next - offset)
  {
    next := offset;
    if offset > MAX_NAME { return NotFound, next; }
    if pos + offset + 1 > |data| { return NotFound, next; }
    var o := data[pos + offset];
    if o >= COMPRESSION {
      return Found, offset + 2;
    }
    if o > LABEL_MAX || pos + offset + o as int + 1 > |data| { return NotFound, next; }
    next := offset + o as int + 1;
    assert data[pos + offset..][o as int + 1..] == data[pos + next..];
    return if o == 0 then Found else Continue, next;
  }

  class Metadata {
    var curPos: nat

    /** Moves `curPos` past the name it points at. The limit of 255 labels is never the reason to fail. */
    method ProcessDnameGlobal(data: seq<Octet>, readable: bool) returns (ok: bool)
      requires curPos <= |data|
      modifies this
      ensures ok <==> readable && old(curPos) <= MAX_PACKET && LengthAt(data, old(curPos), 0).Len?
      ensures ok ==> curPos == old(curPos) + LengthAt(data, old(curPos), 0).n
      ensures !ok ==> curPos == old(curPos)
    {
      if !readable || curPos > MAX_PACKET { return false; }
      ghost var rest := LengthAt(data, curPos, 0);
      var i, offset := 0, 0;
      while i < MAX_NAME
        invariant 0 <= i <= MAX_NAME && curPos == old(curPos)
        invariant 2 * i <= offset && (i > 0 ==> 2 * (i - 1) <= MAX_NAME)
        invariant rest == LengthAt(data, curPos, offset) && LengthAt(data, curPos, 0) == Shifted(rest, offset)
      {
        var r, next := ProcessLabel(data, curPos, offset);
        if r == Found {
          curPos := curPos + next;
          return true;
        }
        if r == NotFound { return false; }
        rest := LengthAt(data, curPos, next);
        ShiftedTwice(rest, next - offset, offset);
        offset, i := next, i + 1;
      }
      return false;
    }

    /** Moves the cursor past the name it points at: exactly if there is one, it ends strictly inside the
        packet and within the supported size. */
    method ProcessDname(data: seq<Octet>, cur: Cursor, readable: bool) returns (ok: bool)
      requires cur.pos <= |data| < 0x1_0000
      modifies this, cur
      ensures ok ==> readable && exists name :: IsNameAt(data, old(cur.pos), name) && cur.pos == old(cur.pos) + |Wire(name)|
      ensures ok ==> cur.pos < |data| && cur.pos - old(cur.pos) <= MAX_NAME + 2
      ensures readable && (exists name :: IsNameAt(data, old(cur.pos), name)) ==> ok
    {
      ghost var start := cur.pos;
      if !readable { return false; }
      curPos := cur.pos;
      ok := ProcessDnameGlobal(data, readable);
      NameThere(data, start);
      if !ok { return; }
      if curPos > MAX_PACKET { return false; }
      cur.pos := curPos;
      if cur.pos >= |data| { return false; }
    }
  }

  class Cursor {
    var pos: nat
  }

  ghost predicate IsNameAt(data: seq<Octet>, pos: nat, name: Name) {
    && pos <= |data| && Starts(data[pos..], name, 0)
    && pos + |Wire(name)| < |data| && pos + |Wire(name)| <= MAX_PACKET
  }

  /** A name in place is what the length tells, and the other way round. */
  lemma NameThere(data: seq<Octet>, pos: nat)
    requires pos <= |data|
    ensures var l := NameLength(data[pos..], 0);
      l.Len? && pos + l.n < |data| && pos + l.n <= MAX_PACKET ==>
        l.n <= MAX_NAME + 2 && exists name :: IsNameAt(data, pos, name) && |Wire(name)| == l.n
    ensures forall name :: IsNameAt(data, pos, name) ==> NameLength(data[pos..], 0) == Len(|Wire(name)|)
  {
    var l := NameLength(data[pos..], 0);
    if l.Len? && pos + l.n < |data| && pos + l.n <= MAX_PACKET {
      var name := LengthSound(data[pos..], 0);
      assert IsNameAt(data, pos, name);
    }
    forall name | IsNameAt(data, pos, name) ensures l == Len(|Wire(name)|) {
      LengthComplete(data[pos..], name, 0);
    }
  }
}
