/** AS paths and their normal form (bgpd/bgp_aspath.c).

    A path is a list of typed segments.  `Meaning` is the reading a router gives to it,
    independent of how hops are cut into segments or how a set is laid out; `Normalise`
    is the internal representation the code keeps.  The main result is that two paths
    have the same normal form exactly when they have the same meaning. */
module AsPath {
  import opened Seqs

  const AS_SEGMENT_MAX: nat := 255
  const BGP_AS_MAX: nat := 65535
  const BGP_AS_TRANS: nat := 23456

  type Asn = n: int | 0 <= n < 0x1_0000_0000

  datatype SegType = AsSet | AsSequence | AsConfedSequence | AsConfedSet {
    predicate IsSet() {
      AsSet? || AsConfedSet?
    }
  }

  datatype Segment = Segment(kind: SegType, asns: seq<Asn>)

  type Path = seq<Segment>

  /** One step of a path as a router reads it. */
  datatype Item =
    | Hop(asn: Asn)
    | SetHop(members: set<Asn>)
    | ConfedHops(hops: seq<Asn>)
    | ConfedSetHop(confeds: set<Asn>)

  function AsnSet(s: seq<Asn>): set<Asn> {
    set a | a in s
  }

  function Items(s: Segment): seq<Item> {
    match s.kind
    case AsSequence => seq(|s.asns|, i requires 0 <= i < |s.asns| => Hop(s.asns[i]))
    case AsSet => [SetHop(AsnSet(s.asns))]
    case AsConfedSequence => [ConfedHops(s.asns)]
    case AsConfedSet => [ConfedSetHop(AsnSet(s.asns))]
  }

  function Meaning(p: Path): seq<Item> {
    if p == [] then [] else Items(p[0]) + Meaning(p[1..])
  }

  predicate NoEmptySegment(p: Path) {
    forall i :: 0 <= i < |p| ==> p[i].asns != []
  }

  // ----- sets in canonical order ----------------------------------------------------

  predicate Sorted(s: seq<Asn>) {
    forall i, j :: 0 <= i < j < |s| ==> s[i] <= s[j]
  }

  predicate StrictlySorted(s: seq<Asn>) {
    forall i, j :: 0 <= i < j < |s| ==> s[i] < s[j]
  }

  lemma AsnSetCons(x: Asn, s: seq<Asn>)
    ensures AsnSet([x] + s) == {x} + AsnSet(s)
  {
  }

  lemma AsnSetSnoc(s: seq<Asn>, x: Asn)
    ensures AsnSet(s + [x]) == AsnSet(s) + {x}
  {
  }

  lemma SortedCons(x: Asn, s: seq<Asn>)
    requires Sorted(s)
    requires forall y :: y in AsnSet(s) ==> x <= y
    ensures Sorted([x] + s)
  {
    assert forall i :: 0 <= i < |s| ==> s[i] in AsnSet(s);
  }

  lemma SortedTail(s: seq<Asn>)
    requires Sorted(s) && s != []
    ensures s == [s[0]] + s[1..]
    ensures Sorted(s[1..])
    ensures AsnSet(s) == {s[0]} + AsnSet(s[1..])
    ensures forall y :: y in AsnSet(s) ==> s[0] <= y
  {
  }

  function Insert(s: seq<Asn>, x: Asn): seq<Asn> {
    if s == [] || x <= s[0] then [x] + s else [s[0]] + Insert(s[1..], x)
  }

  lemma {:induction false} InsertSorted(s: seq<Asn>, x: Asn)
    requires Sorted(s)
    ensures Sorted(Insert(s, x)) && |Insert(s, x)| == |s| + 1
    ensures AsnSet(Insert(s, x)) == {x} + AsnSet(s)
  {
    hide Sorted, AsnSet;
    AsnSetNil();
    if s != [] {
      SortedTail(s);
    }
    if s == [] || x <= s[0] {
      AsnSetCons(x, s);
      SortedCons(x, s);
    } else {
      InsertSorted(s[1..], x);
      AsnSetCons(s[0], Insert(s[1..], x));
      SortedCons(s[0], Insert(s[1..], x));
    }
  }

  lemma AsnSetNil()
    ensures AsnSet([]) == {}
  {
  }

  /** What `qsort` with `int_cmp` leaves in a set segment. */
  function Sort(s: seq<Asn>): seq<Asn> {
    if s == [] then [] else Insert(Sort(s[1..]), s[0])
  }

  lemma {:induction false} SortSorts(s: seq<Asn>)
    ensures Sorted(Sort(s)) && |Sort(s)| == |s|
    ensures AsnSet(Sort(s)) == AsnSet(s)
  {
    if s != [] {
      SortSorts(s[1..]);
      InsertSorted(Sort(s[1..]), s[0]);
      assert s == [s[0]] + s[1..];
      AsnSetCons(s[0], s[1..]);
    }
  }

  /** Drops each element equal to its predecessor. */
  function Dedup(s: seq<Asn>): (r: seq<Asn>)
    ensures s != [] ==> r != [] && r[|r| - 1] == s[|s| - 1]
    ensures AsnSet(r) == AsnSet(s)
  {
    if |s| <= 1 then s
    else
      var t := Dedup(s[..|s| - 1]);
      assert s == s[..|s| - 1] + [s[|s| - 1]];
      AsnSetSnoc(s[..|s| - 1], s[|s| - 1]);
      if s[|s| - 1] == s[|s| - 2] then
        assert s[|s| - 1] in AsnSet(s[..|s| - 1]);
        t
      else
        AsnSetSnoc(t, s[|s| - 1]);
        t + [s[|s| - 1]]
  }

  lemma {:induction false} DedupStrict(s: seq<Asn>)
    requires Sorted(s)
    ensures StrictlySorted(Dedup(s))
  {
    if |s| > 1 {
      var front, x := s[..|s| - 1], s[|s| - 1];
      DedupStrict(front);
      var t := Dedup(front);
      if x != s[|s| - 2] {
        forall i | 0 <= i < |t| ensures t[i] < x {
          assert t[i] in AsnSet(t) && t[i] in AsnSet(front);
          assert t[|t| - 1] == s[|s| - 2];
        }
      }
    }
  }

  function CanonSet(s: seq<Asn>): seq<Asn> {
    Dedup(Sort(s))
  }

  lemma CanonSetIsCanonical(s: seq<Asn>)
    ensures StrictlySorted(CanonSet(s))
    ensures AsnSet(CanonSet(s)) == AsnSet(s)
    ensures s != [] ==> CanonSet(s) != []
  {
    SortSorts(s);
    DedupStrict(Sort(s));
  }

  /** A set has one strictly increasing listing. */
  lemma {:induction false} StrictListingUnique(a: seq<Asn>, b: seq<Asn>)
    requires StrictlySorted(a) && StrictlySorted(b)
    requires AsnSet(a) == AsnSet(b)
    ensures a == b
  {
    assert a != [] ==> a[0] in AsnSet(a);
    assert b != [] ==> b[0] in AsnSet(b);
    if a != [] {
      assert a[0] in AsnSet(b) && b[0] in AsnSet(a);
      assert a[0] == b[0];
      forall x ensures x in AsnSet(a[1..]) <==> x in AsnSet(b[1..]) {
        assert a == [a[0]] + a[1..] && b == [b[0]] + b[1..];
        assert x in AsnSet(a) <==> x in AsnSet(b);
      }
      StrictListingUnique(a[1..], b[1..]);
      assert a == [a[0]] + a[1..] && b == [b[0]] + b[1..];
    }
  }

  // ----- normal form ----------------------------------------------------------------

  function CanonSegment(s: Segment): Segment {
    if s.kind.IsSet() then s.(asns := CanonSet(s.asns)) else s
  }

  function Join(s: Segment, rest: Path): Path {
    if s.kind.AsSequence? && rest != [] && rest[0].kind.AsSequence? then
      [Segment(AsSequence, s.asns + rest[0].asns)] + rest[1..]
    else
      [s] + rest
  }

  function Normalise(p: Path): Path {
    if p == [] then [] else Join(CanonSegment(p[0]), Normalise(p[1..]))
  }

  /** Sets are in canonical order, and no two AS_SEQUENCE segments touch. */
  predicate IsJoined(p: Path) {
    && (forall i :: 0 <= i < |p| && p[i].kind.IsSet() ==> StrictlySorted(p[i].asns))
    && (forall i :: 0 < i < |p| ==> !(p[i - 1].kind.AsSequence? && p[i].kind.AsSequence?))
  }

  predicate IsNormal(p: Path) {
    NoEmptySegment(p) && IsJoined(p)
  }

  lemma CanonSegmentItems(s: Segment)
    ensures Items(CanonSegment(s)) == Items(s)
    ensures CanonSegment(s).kind == s.kind
    ensures s.asns != [] ==> CanonSegment(s).asns != []
  {
    CanonSetIsCanonical(s.asns);
  }

  lemma JoinMeaning(s: Segment, rest: Path)
    ensures Meaning(Join(s, rest)) == Items(s) + Meaning(rest)
  {
    if s.kind.AsSequence? && rest != [] && rest[0].kind.AsSequence? {
      var m := Segment(AsSequence, s.asns + rest[0].asns);
      assert Items(m) == Items(s) + Items(rest[0]);
      assert ([m] + rest[1..])[1..] == rest[1..];
    } else {
      assert ([s] + rest)[1..] == rest;
    }
  }

  /** Normalising changes the layout and never the meaning. */
  lemma {:induction false} NormaliseKeepsMeaning(p: Path)
    ensures Meaning(Normalise(p)) == Meaning(p)
  {
    if p != [] {
      NormaliseKeepsMeaning(p[1..]);
      CanonSegmentItems(p[0]);
      JoinMeaning(CanonSegment(p[0]), Normalise(p[1..]));
    }
  }

  lemma JoinIsJoined(s: Segment, rest: Path)
    requires IsJoined(rest) && IsJoined([s])
    ensures IsJoined(Join(s, rest))
    ensures NoEmptySegment(rest) && s.asns != [] ==> NoEmptySegment(Join(s, rest))
    ensures Join(s, rest) != [] && Join(s, rest)[0].kind == s.kind
  {
    var j := Join(s, rest);
    if s.kind.AsSequence? && rest != [] && rest[0].kind.AsSequence? {
      assert forall i :: 0 < i < |j| ==> j[i] == rest[i];
    } else {
      assert forall i :: 0 < i < |j| ==> j[i] == rest[i - 1];
    }
  }

  lemma {:induction false} NormaliseIsNormal(p: Path)
    ensures IsJoined(Normalise(p))
    ensures NoEmptySegment(p) ==> IsNormal(Normalise(p))
    ensures p != [] ==> Normalise(p) != [] && Normalise(p)[0].kind == p[0].kind
  {
    if p != [] {
      NormaliseIsNormal(p[1..]);
      CanonSegmentItems(p[0]);
      CanonSetIsCanonical(p[0].asns);
      JoinIsJoined(CanonSegment(p[0]), Normalise(p[1..]));
    }
  }

  lemma AfterSequence(p: Path)
    requires IsNormal(p) && p != [] && p[0].kind.AsSequence?
    ensures Meaning(p[1..]) == [] || !Meaning(p[1..])[0].Hop?
  {
  }

  /** In a normal path the leading segment can be read off the meaning. */
  lemma LeadingSequence(p: Path, q: Path)
    requires IsNormal(p) && IsNormal(q) && p != [] && q != []
    requires p[0].kind.AsSequence? && q[0].kind.AsSequence?
    requires Meaning(p) == Meaning(q)
    ensures |p[0].asns| <= |q[0].asns|
  {
    AfterSequence(q);
    var m, n := Meaning(p), |q[0].asns|;
    assert m == Items(q[0]) + Meaning(q[1..]);
    assert n < |m| ==> !m[n].Hop?;
    assert forall i :: 0 <= i < |p[0].asns| ==> m[i] == Hop(p[0].asns[i]);
  }

  lemma LeadingSegmentEqual(p: Path, q: Path)
    requires IsNormal(p) && IsNormal(q) && p != [] && q != []
    requires Meaning(p) == Meaning(q)
    ensures p[0] == q[0]
  {
    var m := Meaning(p);
    assert m[0] == Items(p[0])[0] && m[0] == Items(q[0])[0];
    assert p[0].kind == q[0].kind;
    if p[0].kind.AsSequence? {
      LeadingSequence(p, q);
      LeadingSequence(q, p);
      forall i | 0 <= i < |p[0].asns| ensures p[0].asns[i] == q[0].asns[i] {
        assert m[i] == Items(p[0])[i] && m[i] == Items(q[0])[i];
      }
      assert p[0].asns == q[0].asns;
    } else if p[0].kind.IsSet() {
      StrictListingUnique(p[0].asns, q[0].asns);
    }
  }

  lemma {:induction false} NormalFormUnique(p: Path, q: Path)
    requires IsNormal(p) && IsNormal(q)
    requires Meaning(p) == Meaning(q)
    ensures p == q
  {
    assert p != [] ==> Items(p[0]) != [];
    assert q != [] ==> Items(q[0]) != [];
    if p != [] {
      LeadingSegmentEqual(p, q);
      var k := |Items(p[0])|;
      assert Meaning(p[1..]) == Meaning(p)[k..];
      assert Meaning(q[1..]) == Meaning(q)[k..];
      NormalFormUnique(p[1..], q[1..]);
      assert p == [p[0]] + p[1..] && q == [q[0]] + q[1..];
    }
  }

  /** Main result: the normal form is canonical. */
  lemma NormaliseCanonical(p: Path, q: Path)
    requires NoEmptySegment(p) && NoEmptySegment(q)
    ensures Normalise(p) == Normalise(q) <==> Meaning(p) == Meaning(q)
  {
    NormaliseKeepsMeaning(p);
    NormaliseKeepsMeaning(q);
    if Meaning(p) == Meaning(q) {
      NormaliseIsNormal(p);
      NormaliseIsNormal(q);
      NormalFormUnique(Normalise(p), Normalise(q));
    }
  }

  lemma {:induction false} JoinedStays(p: Path)
    requires IsJoined(p)
    ensures Normalise(p) == p
  {
    if p != [] {
      var rest := p[1..];
      forall i | 0 < i < |rest| ensures !(rest[i - 1].kind.AsSequence? && rest[i].kind.AsSequence?) {
        assert !(p[i + 1 - 1].kind.AsSequence? && p[i + 1].kind.AsSequence?);
      }
      JoinedStays(rest);
      if p[0].kind.IsSet() {
        CanonSetIsCanonical(p[0].asns);
        StrictListingUnique(CanonSet(p[0].asns), p[0].asns);
      }
      assert |p| > 1 ==> !(p[1 - 1].kind.AsSequence? && p[1].kind.AsSequence?);
    }
  }

  /** A path is a fixed point of normalisation exactly when its sets are in order and its
      AS_SEQUENCEs joined; normalising twice is normalising once. */
  lemma NormaliseFixedPoint(p: Path)
    ensures Normalise(p) == p <==> IsJoined(p)
    ensures Normalise(Normalise(p)) == Normalise(p)
  {
    NormaliseIsNormal(p);
    if IsJoined(p) {
      JoinedStays(p);
    }
    JoinedStays(Normalise(p));
  }

  lemma {:induction false} MeaningConcat(a: Path, b: Path)
    ensures Meaning(a + b) == Meaning(a) + Meaning(b)
  {
    hide Items;
    if a == [] {
      assert a + b == b;
    } else {
      MeaningConcat(a[1..], b);
      assert (a + b)[1..] == a[1..] + b;
      AppendAssoc(Items(a[0]), Meaning(a[1..]), Meaning(b));
    }
  }

  lemma MeaningCons(s: Segment, rest: Path)
    ensures Meaning([s] + rest) == Items(s) + Meaning(rest)
  {
    assert ([s] + rest)[1..] == rest;
  }

  lemma MeaningOne(s: Segment)
    ensures Meaning([s]) == Items(s)
  {
    assert [s][1..] == [];
  }

  // ----- path length ----------------------------------------------------------------

  function CountHops(p: Path): nat {
    if p == [] then 0
    else (match p[0].kind
          case AsSequence => |p[0].asns|
          case AsSet => 1
          case _ => 0) + CountHops(p[1..])
  }

  function CountConfeds(p: Path): nat {
    if p == [] then 0
    else (match p[0].kind
          case AsConfedSequence => |p[0].asns|
          case AsConfedSet => 1
          case _ => 0) + CountConfeds(p[1..])
  }

  function HopsOf(m: seq<Item>): nat {
    if m == [] then 0
    else (match m[0] case Hop(_) => 1 case SetHop(_) => 1 case _ => 0) + HopsOf(m[1..])
  }

  function ConfedsOf(m: seq<Item>): nat {
    if m == [] then 0
    else (match m[0] case ConfedHops(c) => |c| case ConfedSetHop(_) => 1 case _ => 0) + ConfedsOf(m[1..])
  }

  lemma {:induction false} HopsOfConcat(a: seq<Item>, b: seq<Item>)
    ensures HopsOf(a + b) == HopsOf(a) + HopsOf(b)
    ensures ConfedsOf(a + b) == ConfedsOf(a) + ConfedsOf(b)
  {
    if a == [] {
      assert a + b == b;
    } else {
      HopsOfConcat(a[1..], b);
      assert (a + b)[1..] == a[1..] + b;
    }
  }

  lemma {:induction false} HopRun(m: seq<Item>)
    requires forall i :: 0 <= i < |m| ==> m[i].Hop?
    ensures HopsOf(m) == |m| && ConfedsOf(m) == 0
  {
    if m != [] {
      HopRun(m[1..]);
    }
  }

  /** Both counts are functions of the meaning alone. */
  lemma {:induction false} CountsFromMeaning(p: Path)
    ensures CountHops(p) == HopsOf(Meaning(p))
    ensures CountConfeds(p) == ConfedsOf(Meaning(p))
  {
    if p != [] {
      CountsFromMeaning(p[1..]);
      HopsOfConcat(Items(p[0]), Meaning(p[1..]));
      if p[0].kind.AsSequence? {
        HopRun(Items(p[0]));
      } else {
        assert Items(p[0])[1..] == [];
      }
    }
  }

  lemma NormaliseKeepsCounts(p: Path)
    ensures CountHops(Normalise(p)) == CountHops(p)
    ensures CountConfeds(Normalise(p)) == CountConfeds(p)
  {
    CountsFromMeaning(p);
    CountsFromMeaning(Normalise(p));
    NormaliseKeepsMeaning(p);
  }

  // ----- the in-place algorithms ----------------------------------------------------

  lemma DedupStep(s: seq<Asn>, i: nat)
    requires 1 <= i < |s|
    ensures Dedup(s[..i + 1]) == if s[i] == s[i - 1] then Dedup(s[..i]) else Dedup(s[..i]) + [s[i]]
  {
    assert s[..i + 1][..i] == s[..i];
  }

  lemma DedupOne(s: seq<Asn>)
    requires |s| <= 1
    ensures Dedup(s) == s
  {
  }

  /** Weeds out repeats of a sorted segment in place; returns the new length. */
  method Weed(data: array<Asn>) returns (length: nat)
    requires data.Length > 0
    modifies data
    ensures length <= data.Length
    ensures data[..length] == Dedup(old(data[..]))
  {
    hide Dedup;
    ghost var given := data[..];
    var tail, i := 0, 1;
    assert data[..1] == given[..1];
    DedupOne(given[..1]);
    while i < data.Length
      invariant 0 <= tail < i <= data.Length
      invariant forall k :: i <= k < data.Length ==> data[k] == given[k]
      invariant data[tail] == given[i - 1]
      invariant data[..tail + 1] == Dedup(given[..i])
    {
      DedupStep(given, i);
      ghost var before := data[..tail + 1];
      if data[tail] != data[i] {
        tail := tail + 1;
        if tail < i {
          data[tail] := data[i];
        }
        assert data[..tail + 1] == before + [given[i]];
      }
      i := i + 1;
    }
    assert given[..i] == given;
    length := tail + 1;
  }

  /** Sorts a set segment in place and weeds out repeats. */
  method SortAndWeed(data: array<Asn>) returns (length: nat)
    modifies data
    ensures length <= data.Length
    ensures data[..length] == CanonSet(old(data[..]))
  {
    var sorted := Sort(data[..]);
    SortSorts(data[..]);
    forall i | 0 <= i < data.Length {
      data[i] := sorted[i];
    }
    assert data[..] == sorted;
    if data.Length == 0 {
      length := 0;
    } else {
      length := Weed(data);
    }
  }

  lemma NormaliseMergeStep(s: Segment, t: Segment, rest: Path)
    requires s.kind.AsSequence? && t.kind.AsSequence?
    ensures Normalise([s, t] + rest) == Normalise([Segment(AsSequence, s.asns + t.asns)] + rest)
  {
    var n := Normalise(rest);
    var m := Segment(AsSequence, s.asns + t.asns);
    assert ([s, t] + rest)[1..] == [t] + rest;
    assert ([t] + rest)[1..] == rest;
    assert ([m] + rest)[1..] == rest;
    var inner := Join(t, n);
    assert inner[0].kind.AsSequence?;
    if n != [] && n[0].kind.AsSequence? {
      assert s.asns + (t.asns + n[0].asns) == s.asns + t.asns + n[0].asns;
      assert inner[1..] == n[1..];
    } else {
      assert inner[1..] == n;
    }
  }

  lemma {:induction false} NormaliseHeadKind(p: Path)
    requires p != []
    ensures Normalise(p) != [] && Normalise(p)[0].kind == p[0].kind
  {
  }

  lemma NormalisePinned(s: Segment, rest: Path)
    requires !(s.kind.AsSequence? && rest != [] && rest[0].kind.AsSequence?)
    ensures Normalise([s] + rest) == [CanonSegment(s)] + Normalise(rest)
  {
    assert ([s] + rest)[1..] == rest;
    if rest != [] {
      NormaliseHeadKind(rest);
    }
  }

  /** The set case of the loop below, on the array that holds the segment. */
  method CanonicaliseSet(asns: seq<Asn>) returns (r: seq<Asn>)
    ensures r == CanonSet(asns)
  {
    var data := new Asn[|asns|](i requires 0 <= i < |asns| => asns[i]);
    assert data[..] == asns;
    var length := SortAndWeed(data);
    r := data[..length];
  }

  /** Appends to the pinned segment the AS_SEQUENCE segments that follow it. */
  method AbsorbSequences(pinned: Segment, after: Path) returns (seg: Segment, rest: Path)
    requires !pinned.kind.IsSet()
    ensures Normalise([pinned] + after) == [seg] + Normalise(rest)
    ensures |rest| <= |after|
  {
    hide Normalise;
    seg, rest := pinned, after;
    while rest != [] && seg.kind.AsSequence? && rest[0].kind.AsSequence?
      invariant !seg.kind.IsSet() && |rest| <= |after|
      invariant Normalise([seg] + rest) == Normalise([pinned] + after)
      decreases |rest|
    {
      NormaliseMergeStep(seg, rest[0], rest[1..]);
      assert [seg] + rest == [seg, rest[0]] + rest[1..];
      seg, rest := Segment(AsSequence, seg.asns + rest[0].asns), rest[1..];
    }
    NormalisePinned(seg, rest);
  }

  /** `assegment_normalise`: pins each segment in turn, puts a set in order, and lets a pinned
      AS_SEQUENCE absorb the ones that follow. */
  method NormaliseSegments(head: Path) returns (r: Path)
    ensures r == Normalise(head)
  {
    hide CanonSet, Join;
    var todo := head;
    r := [];
    while todo != []
      invariant r + Normalise(todo) == Normalise(head)
      decreases |todo|
    {
      var seg, rest := todo[0], todo[1..];
      assert todo == [seg] + rest;
      if seg.kind.IsSet() {
        NormalisePinned(seg, rest);
        var asns := CanonicaliseSet(seg.asns);
        seg := seg.(asns := asns);
      } else {
        seg, rest := AbsorbSequences(seg, rest);
      }
      assert r + ([seg] + Normalise(rest)) == (r + [seg]) + Normalise(rest);
      r, todo := r + [seg], rest;
    }
  }
}
