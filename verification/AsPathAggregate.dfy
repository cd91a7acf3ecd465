/** Aggregating two AS paths (aspath_aggregate in bgpd/bgp_aspath.c): the common leading part is
    kept, everything else goes into one AS_SET.

    The offset `match` at which the common walk stopped is also used as the place to start
    reading what is left of each path.  When the walk stops between two segments it still holds
    the length of the last common segment, and numbers can be lost; `UnionExact` says when. */
module AsPathAggregate {
  import opened Seqs
  import opened AsPath

  function CommonLength(a: seq<Asn>, b: seq<Asn>): (n: nat)
    ensures n <= |a| && n <= |b| && a[..n] == b[..n]
    ensures n < |a| && n < |b| ==> a[n] != b[n]
  {
    if a == [] || b == [] || a[0] != b[0] then 0
    else
      var n := CommonLength(a[1..], b[1..]);
      assert a[..n + 1] == [a[0]] + a[1..][..n] && b[..n + 1] == [b[0]] + b[1..][..n];
      n + 1
  }

  /** Where the walk along both paths ends. */
  datatype Walk = Walk(lead: Path, match_: nat, rest1: Path, rest2: Path)

  function LeadSegment(k: SegType, common: seq<Asn>): Path {
    if common == [] then [] else [Segment(k, common)]
  }

  function CommonWalk(p: Path, q: Path, match_: nat): Walk {
    if p == [] || q == [] || p[0].kind != q[0].kind then Walk([], match_, p, q)
    else
      var n := CommonLength(p[0].asns, q[0].asns);
      var seg := LeadSegment(p[0].kind, p[0].asns[..n]);
      if n == |p[0].asns| == |q[0].asns| then
        var w := CommonWalk(p[1..], q[1..], n);
        w.(lead := seg + w.lead)
      else
        Walk(seg, n, p, q)
  }

  function AllAsns(p: Path): seq<Asn> {
    if p == [] then [] else p[0].asns + AllAsns(p[1..])
  }

  function Drop(s: seq<Asn>, n: nat): seq<Asn> {
    if n <= |s| then s[n..] else []
  }

  function Take(s: seq<Asn>, n: nat): seq<Asn> {
    if n <= |s| then s[..n] else s
  }

  /** What the second half of the algorithm reads of a path. */
  function Leftover(p: Path, from: nat): seq<Asn> {
    if p == [] then [] else Drop(p[0].asns, from) + AllAsns(p[1..])
  }

  /** What it passes over. */
  function PassedOver(p: Path, from: nat): seq<Asn> {
    if p == [] then [] else Take(p[0].asns, from)
  }

  /** aspath_aggregate_as_set_add, over a list of numbers. */
  function AddToSet(members: seq<Asn>, asns: seq<Asn>): seq<Asn>
    decreases asns
  {
    if asns == [] then members
    else AddToSet(if asns[0] in members then members else members + [asns[0]], asns[1..])
  }

  function Gathered(w: Walk): seq<Asn> {
    AddToSet(AddToSet([], Leftover(w.rest1, w.match_)), Leftover(w.rest2, w.match_))
  }

  function Assemble(w: Walk): Path {
    w.lead + LeadSegment(AsSet, Gathered(w))
  }

  function Aggregate(p: Path, q: Path): Path {
    Normalise(Assemble(CommonWalk(p, q, 0)))
  }

  // ----- the loops ------------------------------------------------------------------

  method FindMatch(a: seq<Asn>, b: seq<Asn>) returns (n: nat)
    ensures n == CommonLength(a, b)
  {
    n := 0;
    ghost var x, y := a, b;
    while n < |a| && n < |b| && a[n] == b[n]
      invariant n <= |a| && n <= |b| && x == a[n..] && y == b[n..]
      invariant n + CommonLength(x, y) == CommonLength(a, b)
    {
      x, y := x[1..], y[1..];
      n := n + 1;
    }
  }

  method WalkCommon(p: Path, q: Path) returns (w: Walk)
    ensures w == CommonWalk(p, q, 0)
  {
    hide LeadSegment, CommonLength;
    var seg1, seg2, lead: Path, match_ := p, q, [], 0;
    ghost var all := CommonWalk(p, q, 0);
    assert lead + all.lead == all.lead;
    while seg1 != [] && seg2 != [] && seg1[0].kind == seg2[0].kind
      invariant var t := CommonWalk(seg1, seg2, match_); all == t.(lead := lead + t.lead)
      decreases |seg1|
    {
      ghost var t := CommonWalk(seg1, seg2, match_);
      match_ := FindMatch(seg1[0].asns, seg2[0].asns);
      var seg := LeadSegment(seg1[0].kind, seg1[0].asns[..match_]);
      if match_ == |seg1[0].asns| == |seg2[0].asns| {
        AppendAssoc(lead, seg, CommonWalk(seg1[1..], seg2[1..], match_).lead);
        lead, seg1, seg2 := lead + seg, seg1[1..], seg2[1..];
      } else {
        return Walk(lead + seg, match_, seg1, seg2);
      }
    }
    assert lead + [] == lead;
    w := Walk(lead, match_, seg1, seg2);
  }

  method AddAll(members: seq<Asn>, asns: seq<Asn>) returns (r: seq<Asn>)
    ensures r == AddToSet(members, asns)
  {
    r := members;
    var todo := asns;
    while todo != []
      invariant AddToSet(r, todo) == AddToSet(members, asns)
      decreases |todo|
    {
      if todo[0] !in r {
        r := r + [todo[0]];
      }
      todo := todo[1..];
    }
  }

  method GatherRest(members: seq<Asn>, rest: Path, from: nat) returns (r: seq<Asn>)
    ensures r == AddToSet(members, Leftover(rest, from))
  {
    r := members;
    var seg, start := rest, from;
    while seg != []
      invariant AddToSet(r, Leftover(seg, start)) == AddToSet(members, Leftover(rest, from))
      decreases |seg|
    {
      var here := Drop(seg[0].asns, start);
      AddToSetConcat(r, here, AllAsns(seg[1..]));
      r := AddAll(r, here);
      LeftoverAll(seg[1..]);
      seg, start := seg[1..], 0;
    }
  }

  method AggregatePaths(p: Path, q: Path) returns (r: Path)
    ensures r == Aggregate(p, q)
  {
    var w := WalkCommon(p, q);
    var members := GatherRest([], w.rest1, w.match_);
    members := GatherRest(members, w.rest2, w.match_);
    r := NormaliseSegments(w.lead + LeadSegment(AsSet, members));
  }

  lemma LeftoverAll(p: Path)
    ensures Leftover(p, 0) == AllAsns(p)
  {
    if p != [] {
      assert p[0].asns[0..] == p[0].asns;
    }
  }

  lemma {:induction false} AddToSetConcat(m: seq<Asn>, a: seq<Asn>, b: seq<Asn>)
    ensures AddToSet(m, a + b) == AddToSet(AddToSet(m, a), b)
    decreases a
  {
    if a == [] {
      assert a + b == b;
    } else {
      AddToSetConcat(if a[0] in m then m else m + [a[0]], a[1..], b);
      assert (a + b)[1..] == a[1..] + b;
    }
  }

  lemma {:induction false} AddToSetMembers(m: seq<Asn>, a: seq<Asn>)
    ensures AsnSet(AddToSet(m, a)) == AsnSet(m) + AsnSet(a)
    decreases a
  {
    if a != [] {
      var n := if a[0] in m then m else m + [a[0]];
      AddToSetMembers(n, a[1..]);
      AsnSetSnoc(m, a[0]);
      assert a == [a[0]] + a[1..];
      AsnSetCons(a[0], a[1..]);
    }
  }

  lemma AsnSetConcat(a: seq<Asn>, b: seq<Asn>)
    ensures AsnSet(a + b) == AsnSet(a) + AsnSet(b)
  {
  }

  // ----- commutativity --------------------------------------------------------------

  lemma {:induction false} CommonLengthSymmetric(a: seq<Asn>, b: seq<Asn>)
    ensures CommonLength(a, b) == CommonLength(b, a)
  {
    if a != [] && b != [] && a[0] == b[0] {
      CommonLengthSymmetric(a[1..], b[1..]);
    }
  }

  lemma {:induction false} CommonWalkSymmetric(p: Path, q: Path, match_: nat)
    ensures var w, v := CommonWalk(p, q, match_), CommonWalk(q, p, match_);
            v == Walk(w.lead, w.match_, w.rest2, w.rest1)
  {
    if p != [] && q != [] && p[0].kind == q[0].kind {
      CommonLengthSymmetric(p[0].asns, q[0].asns);
      CommonWalkSymmetric(p[1..], q[1..], CommonLength(p[0].asns, q[0].asns));
    }
  }

  lemma {:induction false} LeadNoEmpty(p: Path, q: Path, match_: nat)
    ensures NoEmptySegment(CommonWalk(p, q, match_).lead)
  {
    if p != [] && q != [] && p[0].kind == q[0].kind {
      LeadNoEmpty(p[1..], q[1..], CommonLength(p[0].asns, q[0].asns));
    }
  }

  /** The gathered numbers are those left over in either path. */
  lemma GatheredMembers(w: Walk)
    ensures AsnSet(Gathered(w)) == AsnSet(Leftover(w.rest1, w.match_)) + AsnSet(Leftover(w.rest2, w.match_))
  {
    var l1, l2 := Leftover(w.rest1, w.match_), Leftover(w.rest2, w.match_);
    AddToSetMembers([], l1);
    AddToSetMembers(AddToSet([], l1), l2);
    AsnSetNil();
  }

  lemma LeadSegmentMeaning(a: seq<Asn>, b: seq<Asn>)
    requires AsnSet(a) == AsnSet(b)
    ensures Meaning(LeadSegment(AsSet, a)) == Meaning(LeadSegment(AsSet, b))
  {
    assert a != [] ==> a[0] in AsnSet(a);
    assert b != [] ==> b[0] in AsnSet(b);
    if a != [] {
      MeaningOne(Segment(AsSet, a));
      MeaningOne(Segment(AsSet, b));
    }
  }

  /** Aggregation does not depend on the order of its arguments. */
  lemma AggregateCommutative(p: Path, q: Path)
    ensures Aggregate(p, q) == Aggregate(q, p)
  {
    var w, v := CommonWalk(p, q, 0), CommonWalk(q, p, 0);
    CommonWalkSymmetric(p, q, 0);
    LeadNoEmpty(p, q, 0);
    GatheredMembers(w);
    GatheredMembers(v);
    LeadSegmentMeaning(Gathered(w), Gathered(v));
    MeaningConcat(w.lead, LeadSegment(AsSet, Gathered(w)));
    MeaningConcat(v.lead, LeadSegment(AsSet, Gathered(v)));
    NormaliseCanonical(Assemble(w), Assemble(v));
  }

  // ----- the common part ------------------------------------------------------------

  function Tag(k: SegType, s: seq<Asn>): seq<(SegType, Asn)> {
    seq(|s|, i requires 0 <= i < |s| => (k, s[i]))
  }

  /** A path as a list of numbers, each with the type of its segment. */
  function Tagged(p: Path): seq<(SegType, Asn)> {
    if p == [] then [] else Tag(p[0].kind, p[0].asns) + Tagged(p[1..])
  }

  lemma TaggedLead(k: SegType, common: seq<Asn>, lead: Path)
    ensures Tagged(LeadSegment(k, common) + lead) == Tag(k, common) + Tagged(lead)
  {
    if common == [] {
      assert LeadSegment(k, common) + lead == lead;
    } else {
      assert (LeadSegment(k, common) + lead)[1..] == lead;
    }
  }

  lemma TaggedPrefix(p: Path, n: nat)
    requires p != [] && n <= |p[0].asns|
    ensures Tag(p[0].kind, p[0].asns[..n]) <= Tagged(p)
  {
    assert Tag(p[0].kind, p[0].asns[..n]) <= Tag(p[0].kind, p[0].asns);
  }

  lemma PrefixConcat<T>(a: seq<T>, b: seq<T>, c: seq<T>)
    requires b <= c
    ensures a + b <= a + c
  {
  }

  /** The leading part of the aggregate is a common prefix of both inputs. */
  lemma {:induction false} LeadIsCommonPrefix(p: Path, q: Path, match_: nat)
    ensures var lead := CommonWalk(p, q, match_).lead;
            Tagged(lead) <= Tagged(p) && Tagged(lead) <= Tagged(q)
  {
    if p != [] && q != [] && p[0].kind == q[0].kind {
      var n := CommonLength(p[0].asns, q[0].asns);
      var k, common := p[0].kind, p[0].asns[..n];
      if n == |p[0].asns| == |q[0].asns| {
        var lead := CommonWalk(p[1..], q[1..], n).lead;
        LeadIsCommonPrefix(p[1..], q[1..], n);
        TaggedLead(k, common, lead);
        assert common == p[0].asns == q[0].asns;
        PrefixConcat(Tag(k, common), Tagged(lead), Tagged(p[1..]));
        PrefixConcat(Tag(k, common), Tagged(lead), Tagged(q[1..]));
      } else {
        TaggedLead(k, common, []);
        assert LeadSegment(k, common) + [] == LeadSegment(k, common);
        assert Tag(k, common) + [] == Tag(k, common);
        TaggedPrefix(p, n);
        TaggedPrefix(q, n);
      }
    }
  }

  // ----- which numbers survive ------------------------------------------------------

  function PathAsns(p: Path): set<Asn> {
    AsnSet(AllAsns(p))
  }

  lemma PathAsnsCons(s: Segment, p: Path)
    ensures PathAsns([s] + p) == AsnSet(s.asns) + PathAsns(p)
  {
    assert ([s] + p)[1..] == p;
    AsnSetConcat(s.asns, AllAsns(p));
  }

  lemma {:induction false} PathAsnsConcat(p: Path, q: Path)
    ensures PathAsns(p + q) == PathAsns(p) + PathAsns(q)
  {
    if p == [] {
      assert p + q == q;
      AsnSetNil();
    } else {
      PathAsnsConcat(p[1..], q);
      assert p == [p[0]] + p[1..];
      assert p + q == [p[0]] + (p[1..] + q);
      PathAsnsCons(p[0], p[1..] + q);
      PathAsnsCons(p[0], p[1..]);
    }
  }

  lemma {:induction false} NormalisePathAsns(p: Path)
    ensures PathAsns(Normalise(p)) == PathAsns(p)
  {
    if p != [] {
      NormalisePathAsns(p[1..]);
      var c, n := CanonSegment(p[0]), Normalise(p[1..]);
      CanonSetIsCanonical(p[0].asns);
      assert p == [p[0]] + p[1..];
      PathAsnsCons(p[0], p[1..]);
      PathAsnsCons(c, n);
      if c.kind.AsSequence? && n != [] && n[0].kind.AsSequence? {
        assert n == [n[0]] + n[1..];
        PathAsnsCons(n[0], n[1..]);
        PathAsnsCons(Segment(AsSequence, c.asns + n[0].asns), n[1..]);
        AsnSetConcat(c.asns, n[0].asns);
      }
    }
  }

  lemma LeftoverSplit(p: Path, from: nat)
    ensures PathAsns(p) == AsnSet(PassedOver(p, from)) + AsnSet(Leftover(p, from))
  {
    if p != [] {
      var s := p[0].asns;
      assert s == Take(s, from) + Drop(s, from);
      AsnSetConcat(Take(s, from), Drop(s, from));
      AsnSetConcat(Drop(s, from), AllAsns(p[1..]));
      AsnSetConcat(s, AllAsns(p[1..]));
    }
  }

  lemma LeadSegmentAsns(k: SegType, s: seq<Asn>)
    ensures PathAsns(LeadSegment(k, s)) == AsnSet(s)
  {
    if s == [] {
      assert AllAsns([]) == [];
    } else {
      assert [Segment(k, s)] + [] == [Segment(k, s)];
      PathAsnsCons(Segment(k, s), []);
    }
  }

  /** Both inputs are the common part, what was passed over, and what was left over. */
  lemma {:induction false} WalkAccountsForAll(p: Path, q: Path, match_: nat)
    ensures var w := CommonWalk(p, q, match_);
            PathAsns(p) + PathAsns(q) == PathAsns(w.lead) + PathAsns(w.rest1) + PathAsns(w.rest2)
  {
    AsnSetNil();
    if p != [] && q != [] && p[0].kind == q[0].kind {
      var n := CommonLength(p[0].asns, q[0].asns);
      var seg := LeadSegment(p[0].kind, p[0].asns[..n]);
      LeadSegmentAsns(p[0].kind, p[0].asns[..n]);
      assert p == [p[0]] + p[1..] && q == [q[0]] + q[1..];
      if n == |p[0].asns| == |q[0].asns| {
        var w := CommonWalk(p[1..], q[1..], n);
        WalkAccountsForAll(p[1..], q[1..], n);
        PathAsnsCons(p[0], p[1..]);
        PathAsnsCons(q[0], q[1..]);
        PathAsnsConcat(seg, w.lead);
        assert p[0].asns[..n] == p[0].asns && q[0].asns[..n] == q[0].asns;
      } else {
        PathAsnsCons(p[0], p[1..]);
        assert p[0].asns[..n] + p[0].asns[n..] == p[0].asns;
        AsnSetConcat(p[0].asns[..n], p[0].asns[n..]);
        assert CommonWalk(p, q, match_) == Walk(seg, n, p, q);
        assert PathAsns(seg) <= PathAsns(p);
      }
    }
  }

  function Kept(w: Walk): set<Asn> {
    PathAsns(w.lead) + AsnSet(Leftover(w.rest1, w.match_)) + AsnSet(Leftover(w.rest2, w.match_))
  }

  function Skipped(w: Walk): set<Asn> {
    AsnSet(PassedOver(w.rest1, w.match_)) + AsnSet(PassedOver(w.rest2, w.match_))
  }

  lemma KeptAndSkipped(p: Path, q: Path)
    ensures var w := CommonWalk(p, q, 0); PathAsns(p) + PathAsns(q) == Kept(w) + Skipped(w)
  {
    hide PathAsns, CommonWalk, Leftover, PassedOver;
    var w := CommonWalk(p, q, 0);
    WalkAccountsForAll(p, q, 0);
    LeftoverSplit(w.rest1, w.match_);
    LeftoverSplit(w.rest2, w.match_);
  }

  /** The numbers the aggregate carries, and those it may lose. */
  lemma AggregateAsns(p: Path, q: Path)
    ensures var w := CommonWalk(p, q, 0);
            PathAsns(Aggregate(p, q)) == Kept(w) && PathAsns(p) + PathAsns(q) == Kept(w) + Skipped(w)
  {
    hide PathAsns, CommonWalk, Leftover, PassedOver, Normalise, Gathered, LeadSegment;
    var w := CommonWalk(p, q, 0);
    KeptAndSkipped(p, q);
    NormalisePathAsns(Assemble(w));
    PathAsnsConcat(w.lead, LeadSegment(AsSet, Gathered(w)));
    LeadSegmentAsns(AsSet, Gathered(w));
    GatheredMembers(w);
  }

  // ----- where numbers are lost -----------------------------------------------------

  /** The paths share their first `k` segments, and then one of them ends or the types differ. */
  predicate PartAfter(p: Path, q: Path, k: nat) {
    && 0 < k <= |p| && k <= |q| && p[..k] == q[..k]
    && (k == |p| || k == |q| || p[k].kind != q[k].kind)
  }

  /** Passing over as many numbers of the next segments as the last common one has loses none. */
  predicate NothingLost(p: Path, q: Path, k: nat)
    requires PartAfter(p, q, k)
  {
    var n := |p[k - 1].asns|;
    AsnSet(PassedOver(p[k..], n)) + AsnSet(PassedOver(q[k..], n))
      <= PathAsns(p[..k]) + AsnSet(Leftover(p[k..], n)) + AsnSet(Leftover(q[k..], n))
  }

  lemma CommonLengthSame(a: seq<Asn>)
    ensures CommonLength(a, a) == |a|
  {
  }

  lemma SameSegmentStep(p: Path, q: Path, match_: nat)
    requires p != [] && q != [] && p[0] == q[0]
    ensures var w := CommonWalk(p[1..], q[1..], |p[0].asns|);
            CommonWalk(p, q, match_) == w.(lead := LeadSegment(p[0].kind, p[0].asns) + w.lead)
  {
    CommonLengthSame(p[0].asns);
    assert p[0].asns[..|p[0].asns|] == p[0].asns;
  }

  lemma PrefixTail(p: Path, k: nat)
    requires 0 < k <= |p|
    ensures p[..k] == [p[0]] + p[1..][..k - 1] && p[..k][1..] == p[1..][..k - 1] && p[1..][k - 1..] == p[k..]
  {
  }

  lemma NoAsns()
    ensures PathAsns([]) == {}
  {
  }

  /** Where the paths part between segments, the walk stops there with the length of the last
      common segment in hand. */
  lemma {:induction false} WalkStopsAt(p: Path, q: Path, k: nat, match_: nat)
    requires PartAfter(p, q, k)
    ensures var w := CommonWalk(p, q, match_);
            && w.rest1 == p[k..] && w.rest2 == q[k..] && w.match_ == |p[k - 1].asns|
            && PathAsns(w.lead) == PathAsns(p[..k])
    decreases k
  {
    hide PathAsns;
    assert p[0] == p[..k][0] == q[..k][0] == q[0];
    var n := |p[0].asns|;
    var w := CommonWalk(p[1..], q[1..], n);
    SameSegmentStep(p, q, match_);
    PathAsnsConcat(LeadSegment(p[0].kind, p[0].asns), w.lead);
    LeadSegmentAsns(p[0].kind, p[0].asns);
    PrefixTail(p, k);
    PathAsnsCons(p[0], p[1..][..k - 1]);
    if k == 1 {
      NoAsns();
      assert p[1..][..0] == [];
    } else {
      PrefixTail(q, k);
      WalkStopsAt(p[1..], q[1..], k - 1, n);
    }
  }

  ghost predicate Parts(p: Path, q: Path) {
    exists k :: PartAfter(p, q, k)
  }

  /** Elsewhere the walk stops inside a segment, or at once. */
  lemma {:induction false} WalkStopsElsewhere(p: Path, q: Path, match_: nat)
    requires !Parts(p, q)
    ensures var w := CommonWalk(p, q, match_);
            StoppedInside(w) || (w.match_ == match_ && w.rest1 == p && w.rest2 == q)
  {
    if p != [] && q != [] && p[0].kind == q[0].kind {
      var n := CommonLength(p[0].asns, q[0].asns);
      if n == |p[0].asns| == |q[0].asns| {
        assert p[0] == q[0];
        assert !PartAfter(p, q, 1);
        forall k: nat ensures !PartAfter(p[1..], q[1..], k) {
          PartTail(p, q, k);
        }
        WalkStopsElsewhere(p[1..], q[1..], n);
      }
    }
  }

  lemma PartTail(p: Path, q: Path, k: nat)
    requires p != [] && q != [] && p[0] == q[0]
    ensures PartAfter(p[1..], q[1..], k) ==> PartAfter(p, q, k + 1)
  {
    if PartAfter(p[1..], q[1..], k) {
      assert p[..k + 1] == [p[0]] + p[1..][..k] && q[..k + 1] == [q[0]] + q[1..][..k];
    }
  }

  /** The aggregate carries every AS number of both inputs exactly when, should the paths part
      between segments, the numbers passed over there occur in the common part or further on. */
  lemma UnionExact(p: Path, q: Path)
    ensures PathAsns(Aggregate(p, q)) == PathAsns(p) + PathAsns(q) <==>
              forall k :: PartAfter(p, q, k) ==> NothingLost(p, q, k)
  {
    var w := CommonWalk(p, q, 0);
    AggregateAsns(p, q);
    hide Aggregate, PathAsns;
    if Parts(p, q) {
      forall k: nat | PartAfter(p, q, k) ensures NothingLost(p, q, k) <==> Skipped(w) <= Kept(w) {
        WalkStopsAt(p, q, k, 0);
      }
    } else {
      WalkStopsElsewhere(p, q, 0);
      AsnSetNil();
      if StoppedInside(w) {
        StoppedInsideLead(p, q, 0);
      } else {
        assert Skipped(w) == {};
      }
    }
  }

  /** The walk stopped inside a segment of both paths. */
  predicate StoppedInside(w: Walk) {
    && w.rest1 != [] && w.rest2 != [] && w.rest1[0].kind == w.rest2[0].kind
  }

  lemma {:induction false} StoppedInsideLead(p: Path, q: Path, match_: nat)
    requires StoppedInside(CommonWalk(p, q, match_))
    ensures var w := CommonWalk(p, q, match_); Skipped(w) <= PathAsns(w.lead)
  {
    var n := CommonLength(p[0].asns, q[0].asns);
    var seg := LeadSegment(p[0].kind, p[0].asns[..n]);
    if n == |p[0].asns| == |q[0].asns| {
      StoppedInsideLead(p[1..], q[1..], n);
      PathAsnsConcat(seg, CommonWalk(p[1..], q[1..], n).lead);
    } else {
      LeadSegmentAsns(p[0].kind, p[0].asns[..n]);
    }
  }

  /** Nothing is lost when the walk stops inside a segment, on the first segments, or with both
      paths used up. */
  lemma UnionSufficient(p: Path, q: Path)
    requires var w := CommonWalk(p, q, 0);
             StoppedInside(w) || w.match_ == 0 || (w.rest1 == [] && w.rest2 == [])
    ensures PathAsns(Aggregate(p, q)) == PathAsns(p) + PathAsns(q)
  {
    var w := CommonWalk(p, q, 0);
    AggregateAsns(p, q);
    AsnSetNil();
    if StoppedInside(w) {
      StoppedInsideLead(p, q, 0);
    } else {
      assert Skipped(w) == {};
    }
  }

  /** The stale offset at work: the second segment of the longer path vanishes. */
  lemma UnionFails()
    ensures var p, q := [Segment(AsSequence, [1])], [Segment(AsSequence, [1]), Segment(AsSet, [2])];
            2 in PathAsns(q) && 2 !in PathAsns(Aggregate(p, q))
  {
    var a, b := Segment(AsSequence, [1]), Segment(AsSet, [2]);
    var p, q := [a], [a, b];
    var w := CommonWalk(p, q, 0);
    assert p[1..] == [] && q[1..] == [b] && [b][1..] == [] && a.asns[1..] == [];
    assert CommonLength(a.asns, a.asns) == 1;
    assert CommonWalk(p[1..], q[1..], 1) == Walk([], 1, [], [b]);
    assert a.asns[..1] == [1];
    assert w == Walk([a], 1, [], [b]);
    assert Leftover([b], 1) == [];
    AggregateAsns(p, q);
    assert AllAsns([a]) == [1];
    assert AllAsns(q) == [1, 2];
    assert 2 in AllAsns(q);
  }
}
