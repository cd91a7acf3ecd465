/** Recovering 4-byte AS numbers after 2-byte speakers (aspath_reconcile_as4 in
    bgpd/bgp_aspath.c; section 4.2.3 of RFC 6793). */
module AsPathReconcile {
  import opened Seqs
  import opened AsPath
  import opened AsPathWire

  predicate NoConfed(p: Path) {
    forall i :: 0 <= i < |p| ==> p[i].kind.AsSequence? || p[i].kind.AsSet?
  }

  predicate SmallAsns(s: seq<Asn>) {
    forall i :: 0 <= i < |s| ==> s[i] <= BGP_AS_MAX
  }

  predicate SmallPath(p: Path) {
    forall i :: 0 <= i < |p| ==> SmallAsns(p[i].asns)
  }

  // ----- the algorithm --------------------------------------------------------------

  /** How much of a segment is copied when `hops` hops are still wanted: a set is one hop, an
      AS_SEQUENCE may be split, an AS_CONFED_SEQUENCE is always taken whole. */
  function Taken(s: Segment, hops: int): Segment
    requires hops > 0
  {
    if s.kind.AsSequence? && hops < |s.asns| then s.(asns := s.asns[..hops]) else s
  }

  function HopsAfter(s: Segment, hops: int): int {
    if s.kind.IsSet() then hops - 1
    else if s.kind.AsConfedSequence? && hops < |s.asns| then 0
    else hops - |s.asns|
  }

  /** The segments that carry the first `hops` hops. */
  function TakeHops(p: Path, hops: int): Path {
    if p == [] || hops <= 0 then []
    else [Taken(p[0], hops)] + TakeHops(p[1..], HopsAfter(p[0], hops))
  }

  function HopsToKeep(path: Path, as4: Path): int {
    var hops := CountHops(path) + CountConfeds(path) - CountHops(as4);
    if hops < 0 then CountHops(path) else hops
  }

  function Reconcile(path: Path, as4: Path): Path {
    var hops := HopsToKeep(path, as4);
    if hops == 0 then as4 else Normalise(TakeHops(path, hops) + as4)
  }

  method CountLoop(p: Path) returns (hops: nat, confeds: nat)
    ensures hops == CountHops(p) && confeds == CountConfeds(p)
  {
    hops, confeds := 0, 0;
    var seg := p;
    while seg != []
      invariant hops + CountHops(seg) == CountHops(p)
      invariant confeds + CountConfeds(seg) == CountConfeds(p)
      decreases |seg|
    {
      match seg[0].kind {
        case AsSequence => hops := hops + |seg[0].asns|;
        case AsSet => hops := hops + 1;
        case AsConfedSequence => confeds := confeds + |seg[0].asns|;
        case AsConfedSet => confeds := confeds + 1;
      }
      seg := seg[1..];
    }
  }

  /** The copying loop: `newpath` grows by one segment per turn. */
  method CopyHops(path: Path, total: int) returns (kept: Path)
    ensures kept == TakeHops(path, total)
  {
    var seg, hops := path, total;
    kept := [];
    while seg != [] && hops > 0
      invariant kept + TakeHops(seg, hops) == TakeHops(path, total)
      decreases |seg|
    {
      var taken, left := seg[0], hops;
      var n := |taken.asns|;
      match seg[0].kind {
        case AsSet => left := hops - 1;
        case AsConfedSet => left := hops - 1;
        case AsConfedSequence =>
          if hops < n { left := n; }
          left := left - n;
        case AsSequence =>
          if hops < n { taken := taken.(asns := taken.asns[..hops]); }
          left := hops - n;
      }
      assert taken == Taken(seg[0], hops) && left == HopsAfter(seg[0], hops);
      AppendCons(kept, taken, TakeHops(seg[1..], left));
      kept, seg, hops := kept + [taken], seg[1..], left;
    }
    assert kept + [] == kept;
  }

  method ReconcileAs4(path: Path, as4: Path) returns (merged: Path)
    ensures merged == Reconcile(path, as4)
  {
    var pathHops, pathConfeds := CountLoop(path);
    var as4Hops, _ := CountLoop(as4);
    var known: int := as4Hops;
    var hops := pathHops + pathConfeds - known;
    if hops < 0 {
      hops := pathHops;
    }
    if hops == 0 {
      return as4;
    }
    var kept := CopyHops(path, hops);
    merged := NormaliseSegments(kept + as4);
  }

  // ----- hops and meaning -----------------------------------------------------------

  lemma {:induction false} HopsAreItems(p: Path)
    requires NoConfed(p)
    ensures CountHops(p) == |Meaning(p)| && CountConfeds(p) == 0
  {
    if p != [] {
      HopsAreItems(p[1..]);
    }
  }

  lemma TakeHeadMeaning(s: Segment, h: nat)
    requires s.kind.AsSequence? && h <= |s.asns|
    ensures Items(s.(asns := s.asns[..h])) == Items(s)[..h]
  {
  }

  lemma PrefixOfConcat(a: seq<Item>, b: seq<Item>, n: nat)
    requires |a| <= n <= |a| + |b|
    ensures (a + b)[..n] == a + b[..n - |a|]
  {
  }

  /** Hops that end inside the first segment, which is then an AS_SEQUENCE. */
  lemma TakeInside(p: Path, hops: nat)
    requires p != [] && !(p[0].kind.AsConfedSequence? || p[0].kind.AsConfedSet?) && 0 < hops < |Items(p[0])|
    ensures TakeHops(p, hops) == [p[0].(asns := p[0].asns[..hops])]
    ensures Meaning(TakeHops(p, hops)) == Meaning(p)[..hops]
  {
    TakeHeadMeaning(p[0], hops);
    MeaningOne(p[0].(asns := p[0].asns[..hops]));
  }

  /** Hops that reach the end of the first segment. */
  lemma TakeWhole(p: Path, hops: nat)
    requires p != [] && !(p[0].kind.AsConfedSequence? || p[0].kind.AsConfedSet?) && 0 < hops && |Items(p[0])| <= hops
    ensures TakeHops(p, hops) == [p[0]] + TakeHops(p[1..], hops - |Items(p[0])|)
  {
    assert p[0].kind.AsSequence? ==> |Items(p[0])| == |p[0].asns|;
  }

  lemma {:induction false} TakeHopsMeaning(p: Path, hops: nat)
    requires NoConfed(p) && hops <= |Meaning(p)|
    ensures Meaning(TakeHops(p, hops)) == Meaning(p)[..hops]
    ensures NoEmptySegment(p) ==> NoEmptySegment(TakeHops(p, hops))
  {
    if p != [] && hops > 0 {
      hide TakeHops, Items;
      var n := |Items(p[0])|;
      if hops < n {
        TakeInside(p, hops);
      } else {
        TakeWhole(p, hops);
        var rest := TakeHops(p[1..], hops - n);
        TakeHopsMeaning(p[1..], hops - n);
        assert ([p[0]] + rest)[1..] == rest;
        PrefixOfConcat(Items(p[0]), Meaning(p[1..]), hops);
      }
    }
  }

  // ----- what AS_TRANS substitution leaves alone ------------------------------------

  predicate SmallItem(i: Item) {
    match i
    case Hop(a) => a <= BGP_AS_MAX
    case SetHop(m) => forall a :: a in m ==> a <= BGP_AS_MAX
    case ConfedHops(h) => SmallAsns(h)
    case ConfedSetHop(m) => forall a :: a in m ==> a <= BGP_AS_MAX
  }

  predicate AllSmall(m: seq<Item>) {
    forall i :: 0 <= i < |m| ==> SmallItem(m[i])
  }

  lemma WireSmall(s: seq<Asn>)
    ensures WireAsns(s, false) == s <==> SmallAsns(s)
  {
    if WireAsns(s, false) == s {
      forall i | 0 <= i < |s| ensures s[i] <= BGP_AS_MAX {
        assert WireAsns(s, false)[i] == s[i];
      }
    }
  }

  lemma WireSetSmall(s: seq<Asn>)
    ensures AsnSet(WireAsns(s, false)) == AsnSet(s) <==> SmallAsns(s)
  {
    WireSmall(s);
    var w := WireAsns(s, false);
    if AsnSet(w) == AsnSet(s) {
      forall i | 0 <= i < |s| ensures s[i] <= BGP_AS_MAX {
        assert s[i] in AsnSet(w);
        var j :| 0 <= j < |w| && w[j] == s[i];
      }
    }
  }

  lemma AsnSetSmall(s: seq<Asn>)
    ensures SmallAsns(s) <==> forall a :: a in AsnSet(s) ==> a <= BGP_AS_MAX
  {
    if forall a :: a in AsnSet(s) ==> a <= BGP_AS_MAX {
      forall i | 0 <= i < |s| ensures s[i] <= BGP_AS_MAX {
        assert s[i] in AsnSet(s);
      }
    }
  }

  /** Item by item, `b` is `a` except where a number of `a` does not fit. */
  ghost predicate SameWhereSmall(a: seq<Item>, b: seq<Item>) {
    |a| == |b| && forall i :: 0 <= i < |a| ==> (b[i] == a[i] <==> SmallItem(a[i]))
  }

  lemma SameWhereSmallConcat(a: seq<Item>, b: seq<Item>, c: seq<Item>, d: seq<Item>)
    requires SameWhereSmall(a, b) && SameWhereSmall(c, d)
    ensures SameWhereSmall(a + c, b + d)
  {
    hide SmallItem;
  }

  lemma WireItems(s: Segment)
    ensures SameWhereSmall(Items(s), Items(WireSegment(s, false)))
  {
    if s.kind.IsSet() {
      WireSetSmall(s.asns);
      AsnSetSmall(s.asns);
    } else if s.kind.AsConfedSequence? {
      WireSmall(s.asns);
    }
  }

  /** Substitution keeps the number of items, and keeps an item exactly when all its numbers
      fit in two bytes. */
  lemma {:induction false} WireMeaning(p: Path)
    ensures SameWhereSmall(Meaning(p), Meaning(WirePath(p, false)))
  {
    if p != [] {
      WireMeaning(p[1..]);
      WireItems(p[0]);
      assert WirePath(p, false)[1..] == WirePath(p[1..], false);
      assert WirePath(p, false)[0] == WireSegment(p[0], false);
      hide SameWhereSmall;
      SameWhereSmallConcat(Items(p[0]), Items(WireSegment(p[0], false)),
                           Meaning(p[1..]), Meaning(WirePath(p[1..], false)));
    }
  }

  lemma SmallItems(s: Segment)
    requires s.asns != []
    ensures SmallAsns(s.asns) <==> AllSmall(Items(s))
  {
    AsnSetSmall(s.asns);
    if s.kind.AsSequence? {
      if AllSmall(Items(s)) {
        forall i | 0 <= i < |s.asns| ensures s.asns[i] <= BGP_AS_MAX {
          assert SmallItem(Items(s)[i]);
        }
      }
    } else {
      assert |Items(s)| == 1;
      assert SmallAsns(s.asns) <==> SmallItem(Items(s)[0]);
    }
  }

  lemma {:induction false} SmallMeaning(p: Path)
    requires NoEmptySegment(p)
    ensures SmallPath(p) <==> AllSmall(Meaning(p))
  {
    if p != [] {
      SmallMeaning(p[1..]);
      SmallItems(p[0]);
      var a, b := Items(p[0]), Meaning(p[1..]);
      assert SmallPath(p) <==> SmallAsns(p[0].asns) && SmallPath(p[1..]) by {
        assert forall i :: 0 < i < |p| ==> p[i] == p[1..][i - 1];
        assert forall i :: 0 <= i < |p[1..]| ==> p[1..][i] == p[i + 1];
      }
      AllConcat(a, b);
    }
  }

  lemma AllConcat(a: seq<Item>, b: seq<Item>)
    ensures AllSmall(a + b) <==> AllSmall(a) && AllSmall(b)
  {
    assert forall i :: 0 <= i < |a| ==> (a + b)[i] == a[i];
    assert forall i :: 0 <= i < |b| ==> (a + b)[|a| + i] == b[i];
  }

  // ----- recovery -------------------------------------------------------------------

  lemma NoConfedKept(p: Path)
    requires NoConfed(p)
    ensures NoConfed(Normalise(p))
    ensures NoConfed(WirePath(p, false))
  {
    NormaliseNoConfed(p);
  }

  lemma {:induction false} NormaliseNoConfed(p: Path)
    requires NoConfed(p)
    ensures NoConfed(Normalise(p))
  {
    if p != [] {
      NormaliseNoConfed(p[1..]);
    }
  }

  /** The full path as the originator of the 4-byte path and its 2-byte successors build it. */
  function FullPath(q: Path, p: Path): Path {
    Normalise(q + p)
  }

  /** What a 4-byte router receives in AS_PATH behind a 2-byte speaker. */
  function Received(q: Path, p: Path): Path {
    Normalise(WirePath(FullPath(q, p), false))
  }

  lemma ReceivedMeaning(q: Path, p: Path)
    requires NoEmptySegment(q) && NoEmptySegment(p) && NoConfed(q) && NoConfed(p)
    ensures NoConfed(Received(q, p)) && NoEmptySegment(Received(q, p))
    ensures SameWhereSmall(Meaning(q) + Meaning(p), Meaning(Received(q, p)))
  {
    var full := FullPath(q, p);
    NormaliseIsNormal(q + p);
    NormaliseKeepsMeaning(q + p);
    MeaningConcat(q, p);
    NoConfedKept(q + p);
    NoConfedKept(full);
    NoConfedKept(WirePath(full, false));
    assert NoEmptySegment(WirePath(full, false));
    NormaliseIsNormal(WirePath(full, false));
    NormaliseKeepsMeaning(WirePath(full, false));
    WireMeaning(full);
  }

  lemma KeptPart(q: Path, p: Path)
    requires NoEmptySegment(q) && NoEmptySegment(p) && NoConfed(q) && NoConfed(p)
    ensures HopsToKeep(Received(q, p), p) == |Meaning(q)|
    ensures Meaning(TakeHops(Received(q, p), |Meaning(q)|)) == Meaning(q) <==> SmallPath(q)
    ensures NoEmptySegment(TakeHops(Received(q, p), |Meaning(q)|))
  {
    hide Meaning, Received, TakeHops, NoConfed, NoEmptySegment, SmallPath, CountHops, CountConfeds, AllSmall;
    var r, h := Received(q, p), |Meaning(q)|;
    ReceivedMeaning(q, p);
    HopsAreItems(r);
    HopsAreItems(p);
    TakeHopsMeaning(r, h);
    SmallMeaning(q);
    SmallPrefix(Meaning(q), Meaning(p), Meaning(r));
  }

  lemma SmallPrefix(a: seq<Item>, c: seq<Item>, m: seq<Item>)
    requires SameWhereSmall(a + c, m)
    ensures m[..|a|] == a <==> AllSmall(a)
  {
    hide SmallItem;
    var b := m[..|a|];
    assert forall i :: 0 <= i < |a| ==> a[i] == (a + c)[i] && b[i] == m[i];
    assert forall i :: 0 <= i < |a| ==> (b[i] == a[i] <==> SmallItem(a[i]));
  }

  lemma NoItemsNoSegments(q: Path)
    requires NoEmptySegment(q)
    ensures Meaning(q) == [] <==> q == []
  {
    if q != [] {
      assert |Items(q[0])| > 0;
    }
  }

  /** Main result: with AS4_PATH `p` in hand, the path in front of it is recovered exactly when
      every number prepended by the 2-byte speakers fits in two bytes. */
  lemma As4Recovery(q: Path, p: Path)
    requires NoEmptySegment(q) && NoConfed(q) && NoConfed(p) && IsNormal(p)
    ensures Reconcile(Received(q, p), p) == FullPath(q, p) <==> SmallPath(q)
  {
    var r, h := Received(q, p), |Meaning(q)|;
    KeptPart(q, p);
    NoItemsNoSegments(q);
    if h == 0 {
      assert q + p == p;
      NormaliseFixedPoint(p);
    } else {
      var kept := TakeHops(r, h);
      MeaningConcat(kept, p);
      MeaningConcat(q, p);
      assert NoEmptySegment(kept + p) && NoEmptySegment(q + p);
      NormaliseCanonical(kept + p, q + p);
      SuffixCancel(Meaning(kept), Meaning(q), Meaning(p));
    }
  }

  lemma SuffixCancel(a: seq<Item>, b: seq<Item>, c: seq<Item>)
    ensures a + c == b + c <==> a == b
  {
    if a + c == b + c {
      assert |a| == |b|;
      assert (a + c)[..|a|] == a && (b + c)[..|b|] == b;
    }
  }

  /** The same, from the bytes of the AS_PATH and AS4_PATH attributes. */
  lemma As4RecoveryOnTheWire(q: Path, p: Path)
    requires NoEmptySegment(q) && NoConfed(q) && NoConfed(p) && IsNormal(p)
    requires AllWireable(WirePath(FullPath(q, p), false)) && AllWireable(p)
    ensures var b2, b4 := PutAll(FullPath(q, p), false), PutAll(p, true);
            var path, as4 := ParsePath(b2, |b2|, false), ParsePath(b4, |b4|, true);
            && path.Some? && as4.Some?
            && (Reconcile(path.value, as4.value) == FullPath(q, p) <==> SmallPath(q))
  {
    NormaliseIsNormal(q + p);
    WireRoundTrip(FullPath(q, p), false);
    WideRoundTrip(p);
    As4Recovery(q, p);
    hide PutAll, ParsePath, Reconcile, SmallPath;
  }

  // ----- how the received path comes about ------------------------------------------

  function WireItem(i: Item): Item {
    match i
    case Hop(a) => Hop(WireAsn(a, false))
    case SetHop(m) => SetHop(set a | a in m :: WireAsn(a, false))
    case ConfedHops(h) => ConfedHops(WireAsns(h, false))
    case ConfedSetHop(m) => ConfedSetHop(set a | a in m :: WireAsn(a, false))
  }

  function WireItemSeq(m: seq<Item>): seq<Item> {
    seq(|m|, i requires 0 <= i < |m| => WireItem(m[i]))
  }

  lemma WireSet(s: seq<Asn>)
    ensures AsnSet(WireAsns(s, false)) == set a | a in AsnSet(s) :: WireAsn(a, false)
  {
    var w := WireAsns(s, false);
    forall a | a in s ensures WireAsn(a, false) in AsnSet(w) {
      var i :| 0 <= i < |s| && s[i] == a;
      assert w[i] == WireAsn(a, false);
    }
    forall b | b in w ensures b in set a | a in AsnSet(s) :: WireAsn(a, false) {
      var i :| 0 <= i < |w| && w[i] == b;
      assert s[i] in AsnSet(s);
    }
  }

  lemma SegmentOnTheWire(s: Segment)
    ensures Items(WireSegment(s, false)) == WireItemSeq(Items(s))
  {
    WireSet(s.asns);
    hide WireAsn;
  }

  /** Substitution acts on the meaning of a path, item by item. */
  lemma {:induction false} MeaningOnTheWire(p: Path)
    ensures Meaning(WirePath(p, false)) == WireItemSeq(Meaning(p))
  {
    hide Items, WireItemSeq, WireAsns;
    if p == [] {
      NoItems();
    } else {
      MeaningOnTheWire(p[1..]);
      SegmentOnTheWire(p[0]);
      assert WirePath(p, false)[1..] == WirePath(p[1..], false);
      WireItemsConcat(Items(p[0]), Meaning(p[1..]));
    }
  }

  lemma NoItems()
    ensures WireItemSeq([]) == []
  {
  }

  lemma WireItemsConcat(a: seq<Item>, b: seq<Item>)
    ensures WireItemSeq(a + b) == WireItemSeq(a) + WireItemSeq(b)
  {
    hide WireItem;
  }

  /** What was prepended on the way to what 2-byte speakers passed on is what the model takes to be
      received: it makes no difference whether numbers are substituted before or after joining. */
  lemma JoinedOnTheWay(q: Path, p: Path)
    requires NoEmptySegment(q) && NoEmptySegment(p)
    ensures Received(q, p) == Normalise(WirePath(q, false) + WirePath(p, false))
  {
    var full, parts := WirePath(FullPath(q, p), false), WirePath(q, false) + WirePath(p, false);
    NormaliseIsNormal(q + p);
    NormaliseKeepsMeaning(q + p);
    MeaningOnTheWire(FullPath(q, p));
    MeaningOnTheWire(q + p);
    assert WirePath(q + p, false) == parts;
    assert NoEmptySegment(full) && NoEmptySegment(parts);
    hide Meaning, Normalise, WireItemSeq, NoEmptySegment;
    NormaliseCanonical(full, parts);
  }
}
