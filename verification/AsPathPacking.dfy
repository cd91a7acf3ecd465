/** How aspath_put packs AS_SEQUENCE segments that touch (bgpd/bgp_aspath.c).

    A path that was not normalised after an edit, such as the exclusion of AS numbers by a route
    map, can hold several such segments in a row.  The writer packs all that fit the first of them,
    but each time it patches the length byte it counts only the segment just packed. */
module AsPathPacking {
  import opened Wrappers
  import opened Bytes
  import opened Seqs
  import opened AsPath
  import opened AsPathWire

  function JoinedAsns(next: Path, k: nat): seq<Asn>
    requires k <= |next|
  {
    if k == 0 then [] else next[0].asns + JoinedAsns(next[1..], k - 1)
  }

  /** A segment with the next `k` joined to it. */
  function JoinedHead(s: Segment, next: Path, k: nat): Segment
    requires k <= |next|
  {
    s.(asns := s.asns + JoinedAsns(next, k))
  }

  /** The first segment of a path with those packed into it joined to it. */
  function JoinedFirst(p: Path): Segment
    requires p != []
  {
    JoinedHead(p[0], p[1..], Taken(p))
  }

  /** The path that packing is meant to write. */
  function Packed(p: Path): Path
    decreases |p|
  {
    if p == [] then [] else [JoinedFirst(p)] + Packed(Rest(p))
  }

  /** No segment takes in more than one of those behind it. */
  predicate PacksOneAtMost(p: Path)
    decreases |p|
  {
    p != [] ==> Taken(p) <= 1 && PacksOneAtMost(Rest(p))
  }

  // ----- one head -------------------------------------------------------------------

  lemma {:induction false} PackedDataIs(next: Path, k: nat, wide: bool)
    requires k <= |next|
    ensures PackedData(next, k, wide) == PutData(JoinedAsns(next, k), wide)
    ensures PackedCount(next, k) == |JoinedAsns(next, k)|
  {
    if k > 0 {
      PackedDataIs(next[1..], k - 1, wide);
      PutDataConcat(next[0].asns, JoinedAsns(next[1..], k - 1), wide);
    }
  }

  /** Everything packed but the last segment goes uncounted. */
  lemma {:induction false} CountBeyondLast(next: Path, k: nat)
    requires NoEmptySegment(next) && 0 < k <= |next|
    ensures |JoinedAsns(next, k)| >= |next[k - 1].asns|
    ensures |JoinedAsns(next, k)| == |next[k - 1].asns| <==> k == 1
  {
    if k > 1 {
      CountBeyondLast(next[1..], k - 1);
    } else {
      assert next[0].asns + [] == next[0].asns;
    }
  }

  lemma LongChunks(s: Segment, wide: bool)
    requires |s.asns| > AS_SEGMENT_MAX
    ensures |PutChunks(s, 0, wide)| >= 4 + Span(|s.asns|, wide)
  {
    hide PutData;
  }

  lemma ShortChunk(s: Segment, wide: bool)
    requires |s.asns| <= AS_SEGMENT_MAX
    ensures PutChunks(s, 0, wide) == PutHeader(s.kind, |s.asns|) + PutData(s.asns, wide)
  {
    hide PutData;
    assert s.asns[0..] == s.asns;
  }

  lemma HeadBytes(s: Segment, next: Path, wide: bool)
    requires PackRun(s, next) > 0
    ensures var k := PackRun(s, next);
            var joined := JoinedHead(s, next, k);
            PutHead(s, next, wide) == PutHeader(s.kind, |s.asns| + |next[k - 1].asns|) + PutData(joined.asns, wide)
  {
    hide PutData, PackedData;
    var k := PackRun(s, next);
    PackedDataIs(next, k, wide);
    PutDataConcat(s.asns, JoinedAsns(next, k), wide);
    AppendAssoc(PutHeader(s.kind, |s.asns| + |next[k - 1].asns|), PutData(s.asns, wide), PutData(JoinedAsns(next, k), wide));
  }

  lemma SecondByte(k: SegType, n: Byte, data: seq<Byte>)
    ensures (PutHeader(k, n) + data)[1] == n
  {
  }

  lemma NoneCounted(next: Path)
    ensures PackedCount(next, 0) == 0
  {
  }

  lemma NoRun(s: Segment, next: Path)
    requires PackRun(s, next) == 0
    ensures next == [] || !Packable(s, next[0])
  {
  }

  /** The length byte of what is written for a segment counts the numbers behind it exactly when
      no more than one segment was packed. */
  lemma LengthByteExact(s: Segment, next: Path, wide: bool)
    requires |s.asns| <= AS_SEGMENT_MAX && NoEmptySegment(next)
    ensures PutHead(s, next, wide)[1] == |s.asns| + PackedCount(next, PackRun(s, next)) <==> PackRun(s, next) <= 1
  {
    hide PutData, PackedData, PackedCount, JoinedAsns, PackRun, PutHead, PutChunks, PutHeader, NoEmptySegment;
    var k := PackRun(s, next);
    PackedDataIs(next, k, wide);
    if k > 0 {
      CountBeyondLast(next, k);
      HeadBytes(s, next, wide);
      SecondByte(s.kind, |s.asns| + |next[k - 1].asns|, PutData(JoinedHead(s, next, k).asns, wide));
    } else {
      NoRun(s, next);
      HeadAlone(s, next, wide);
      ShortChunk(s, wide);
      SecondByte(s.kind, |s.asns|, PutData(s.asns, wide));
      NoneCounted(next);
    }
  }

  /** A segment with what is packed into it is written as the joined segment would be exactly when
      no more than one was packed. */
  lemma HeadExact(s: Segment, next: Path, wide: bool)
    requires NoEmptySegment(next)
    ensures var k := PackRun(s, next);
            var x := PutChunks(JoinedHead(s, next, k), 0, wide);
            |PutHead(s, next, wide)| <= |x| && (PutHead(s, next, wide) == x <==> k <= 1)
  {
    var k := PackRun(s, next);
    var joined := JoinedHead(s, next, k);
    hide PutData;
    if k == 0 {
      assert s.asns + [] == s.asns;
    } else {
      HeadBytes(s, next, wide);
      CountBeyondLast(next, k);
      if |joined.asns| > AS_SEGMENT_MAX {
        LongChunks(joined, wide);
      } else {
        ShortChunk(joined, wide);
      }
      hide PutHead, PutChunks, PackRun;
      assert Packable(s, next[k - 1]);
      assert PutHead(s, next, wide)[1] == |s.asns| + |next[k - 1].asns|;
    }
  }

  // ----- whole paths ----------------------------------------------------------------

  lemma FirstExact(p: Path, wide: bool)
    requires NoEmptySegment(p) && p != []
    ensures var x := PutChunks(JoinedFirst(p), 0, wide);
            |PutFirst(p, wide)| <= |x| && (PutFirst(p, wide) == x <==> Taken(p) <= 1)
  {
    hide PutHead, PutChunks, PackRun;
    HeadExact(p[0], p[1..], wide);
  }

  lemma NoEmptyRest(p: Path)
    requires NoEmptySegment(p) && p != []
    ensures p[0].asns != [] && NoEmptySegment(Rest(p))
  {
  }

  lemma PacksStep(p: Path)
    requires p != []
    ensures PacksOneAtMost(p) <==> Taken(p) <= 1 && PacksOneAtMost(Rest(p))
  {
    hide Taken, Rest;
  }

  lemma PackedStep(p: Path)
    requires p != []
    ensures Packed(p) == [JoinedFirst(p)] + Packed(Rest(p))
  {
    hide JoinedFirst, Rest;
  }

  lemma PutPathCons(s: Segment, rest: Path, wide: bool)
    ensures PutPath([s] + rest, wide) == PutChunks(s, 0, wide) + PutPath(rest, wide)
  {
    hide PutChunks;
    assert ([s] + rest)[1..] == rest;
  }

  /** Packing writes the joined path exactly when no segment takes in more than one. */
  lemma {:induction false} PackingExact(p: Path, wide: bool)
    requires NoEmptySegment(p)
    ensures |PutAll(p, wide)| <= |PutPath(Packed(p), wide)|
    ensures PutAll(p, wide) == PutPath(Packed(p), wide) <==> PacksOneAtMost(p)
    decreases |p|
  {
    if p != [] {
      hide PutFirst, PutChunks, Taken, JoinedFirst, Rest, PacksOneAtMost, PutAll, PutPath, Packed, NoEmptySegment;
      var joined, rest := JoinedFirst(p), Rest(p);
      FirstExact(p, wide);
      NoEmptyRest(p);
      PackingExact(rest, wide);
      PutAllStep(p, wide);
      PacksStep(p);
      PackedStep(p);
      PutPathCons(joined, Packed(rest), wide);
      EqualParts(PutFirst(p, wide), PutAll(rest, wide), PutChunks(joined, 0, wide), PutPath(Packed(rest), wide));
    }
  }

  lemma HopsConcat(a: seq<Asn>, b: seq<Asn>)
    ensures Items(Segment(AsSequence, a + b)) == Items(Segment(AsSequence, a)) + Items(Segment(AsSequence, b))
  {
  }

  lemma {:induction false} RunMeaning(s: Segment, next: Path)
    ensures var k := PackRun(s, next);
            Items(Segment(AsSequence, JoinedAsns(next, k))) == Meaning(next[..k])
  {
    if next != [] && Packable(s, next[0]) {
      var k := PackRun(s, next[1..]);
      RunMeaning(s, next[1..]);
      HopsConcat(next[0].asns, JoinedAsns(next[1..], k));
      hide Items;
      assert next[..1 + k][1..] == next[1..][..k];
      assert next[..1 + k][0] == next[0];
    }
  }

  lemma HeadMeaning(s: Segment, next: Path)
    ensures Items(JoinedHead(s, next, PackRun(s, next))) == Items(s) + Meaning(next[..PackRun(s, next)])
  {
    var k := PackRun(s, next);
    RunMeaning(s, next);
    if k == 0 {
      assert s.asns + [] == s.asns && Items(s) + [] == Items(s);
    } else {
      HopsConcat(s.asns, JoinedAsns(next, k));
    }
  }

  lemma MeaningSplit(p: Path, k: nat)
    requires p != [] && k < |p|
    ensures Meaning(p) == (Items(p[0]) + Meaning(p[1..][..k])) + Meaning(p[1 + k..])
  {
    hide Items;
    var a, b := p[1..][..k], p[1 + k..];
    assert p[1..] == a + b;
    MeaningConcat(a, b);
    AppendAssoc(Items(p[0]), Meaning(a), Meaning(b));
  }

  lemma FirstMeaning(p: Path)
    requires p != []
    ensures Meaning(p) == Items(JoinedFirst(p)) + Meaning(Rest(p))
  {
    hide Meaning, Items, PackRun, JoinedHead;
    HeadMeaning(p[0], p[1..]);
    MeaningSplit(p, Taken(p));
  }

  /** Packing keeps the meaning. */
  lemma {:induction false} PackedMeaning(p: Path)
    ensures Meaning(Packed(p)) == Meaning(p)
    decreases |p|
  {
    if p != [] {
      hide Packed, Meaning, Items, JoinedFirst, Rest;
      PackedStep(p);
      MeaningCons(JoinedFirst(p), Packed(Rest(p)));
      FirstMeaning(p);
      PackedMeaning(Rest(p));
    }
  }

  // ----- packing and AS_TRANS -------------------------------------------------------

  lemma {:induction false} WireRun(s: Segment, next: Path, wide: bool)
    ensures PackRun(WireSegment(s, wide), WirePath(next, wide)) == PackRun(s, next)
  {
    if next != [] {
      WireRun(s, next[1..], wide);
      assert WirePath(next, wide)[1..] == WirePath(next[1..], wide);
    }
  }

  lemma WireConcat(a: seq<Asn>, b: seq<Asn>, wide: bool)
    ensures WireAsns(a + b, wide) == WireAsns(a, wide) + WireAsns(b, wide)
  {
  }

  lemma {:induction false} WireJoined(next: Path, k: nat, wide: bool)
    requires k <= |next|
    ensures JoinedAsns(WirePath(next, wide), k) == WireAsns(JoinedAsns(next, k), wide)
  {
    if k > 0 {
      WireJoined(next[1..], k - 1, wide);
      assert WirePath(next, wide)[1..] == WirePath(next[1..], wide);
      WireConcat(next[0].asns, JoinedAsns(next[1..], k - 1), wide);
    }
  }

  lemma WireCons(s: Segment, rest: Path, wide: bool)
    ensures WirePath([s] + rest, wide) == [WireSegment(s, wide)] + WirePath(rest, wide)
  {
    hide WireAsns;
  }

  lemma WireSlice(p: Path, i: nat, wide: bool)
    requires i <= |p|
    ensures WirePath(p, wide)[i..] == WirePath(p[i..], wide)
  {
    hide WireAsns;
  }

  lemma WireJoinedHead(s: Segment, next: Path, k: nat, wide: bool)
    requires k <= |next|
    ensures |WirePath(next, wide)| == |next|
    ensures WireSegment(JoinedHead(s, next, k), wide) == JoinedHead(WireSegment(s, wide), WirePath(next, wide), k)
  {
    WireJoined(next, k, wide);
    WireConcat(s.asns, JoinedAsns(next, k), wide);
    hide WireAsns, JoinedAsns;
  }

  lemma WireRest(p: Path, wide: bool)
    requires p != []
    ensures var w := WirePath(p, wide);
            && w != [] && w[0] == WireSegment(p[0], wide) && Taken(w) == Taken(p)
            && Rest(w) == WirePath(Rest(p), wide) && JoinedFirst(w) == WireSegment(JoinedFirst(p), wide)
  {
    var k, w := Taken(p), WirePath(p, wide);
    assert w[0] == WireSegment(p[0], wide);
    hide WireAsns, PackRun, JoinedHead, WirePath, WireSegment;
    WireSlice(p, 1, wide);
    WireSlice(p, 1 + k, wide);
    WireRun(p[0], p[1..], wide);
    WireJoinedHead(p[0], p[1..], k, wide);
  }

  /** Packing and substitution do not disturb each other. */
  lemma {:induction false} WirePacked(p: Path, wide: bool)
    ensures WirePath(Packed(p), wide) == Packed(WirePath(p, wide))
    decreases |p|
  {
    if p != [] {
      hide Packed, JoinedFirst, WirePath, WireSegment, Rest;
      var w := WirePath(p, wide);
      WireRest(p, wide);
      WirePacked(Rest(p), wide);
      PackedStep(p);
      PackedStep(w);
      WireCons(JoinedFirst(p), Packed(Rest(p)), wide);
    }
  }

  lemma {:induction false} PackedNoEmpty(p: Path)
    requires NoEmptySegment(p)
    ensures NoEmptySegment(Packed(p))
    decreases |p|
  {
    if p != [] {
      hide Rest;
      NoEmptyRest(p);
      PackedNoEmpty(Rest(p));
    }
  }

  lemma WireNoEmpty(p: Path, wide: bool)
    requires NoEmptySegment(p)
    ensures NoEmptySegment(WirePath(p, wide))
  {
  }

  /** Main result: where no segment takes in more than one other, what a peer parses is the normal
      form of the wire path exactly when every packed segment survives being cut. */
  lemma PackedRoundTrip(p: Path, wide: bool)
    requires NoEmptySegment(p) && PacksOneAtMost(p)
    ensures var b := PutAll(p, wide);
            ParsePath(b, |b|, wide) == Some(Normalise(WirePath(p, wide))) <==> AllWireable(WirePath(Packed(p), wide))
  {
    hide ParsePath, PutPath, PutAll, Normalise, Packed, PacksOneAtMost, NoEmptySegment, AllWireable, Meaning, WirePath;
    PackingExact(p, wide);
    PackedNoEmpty(p);
    PlainRoundTrip(Packed(p), wide);
    WirePacked(p, wide);
    PackedMeaning(WirePath(p, wide));
    WireNoEmpty(p, wide);
    WireNoEmpty(Packed(p), wide);
    NormaliseCanonical(WirePath(p, wide), WirePath(Packed(p), wide));
  }

  // ----- the smallest failure -------------------------------------------------------

  function ThreeApart(a: Asn, b: Asn, c: Asn): Path {
    [Segment(AsSequence, [a]), Segment(AsSequence, [b]), Segment(AsSequence, [c])]
  }

  lemma ThreeTaken(a: Asn, b: Asn, c: Asn, rest: Path)
    requires PackRun(Segment(AsSequence, [a]), rest) == 0
    ensures var p := ThreeApart(a, b, c) + rest;
            Taken(p) == 2 && Rest(p) == rest && p[0] == Segment(AsSequence, [a]) && p[1..] == ThreeApart(a, b, c)[1..] + rest
  {
    var s, p, next := Segment(AsSequence, [a]), ThreeApart(a, b, c) + rest, ThreeApart(a, b, c)[1..] + rest;
    assert p[1..] == next && next[1..] == ThreeApart(a, b, c)[2..] + rest && next[1..][1..] == rest && p[3..] == rest;
    assert PackRun(s, next[1..]) == 1;
  }

  lemma ThreeJoined(a: Asn, b: Asn, c: Asn, rest: Path)
    ensures JoinedAsns(ThreeApart(a, b, c)[1..] + rest, 2) == [b] + [c]
  {
    var next := ThreeApart(a, b, c)[1..] + rest;
    assert next[0].asns == [b] && next[1..][0].asns == [c];
    assert JoinedAsns(next[1..], 1) == [c] + [];
  }

  /** Three segments of one number each are packed into one, with 2 for its length. */
  lemma ThreePacked(a: Asn, b: Asn, c: Asn, rest: Path, wide: bool)
    requires PackRun(Segment(AsSequence, [a]), rest) == 0
    ensures var p := ThreeApart(a, b, c) + rest;
            && Taken(p) == 2
            && PutAll(p, wide) == (PutHeader(AsSequence, 2) + PutData([a, b] + [c], wide)) + PutAll(rest, wide)
  {
    var s, p, next := Segment(AsSequence, [a]), ThreeApart(a, b, c) + rest, ThreeApart(a, b, c)[1..] + rest;
    ThreeTaken(a, b, c, rest);
    ThreeJoined(a, b, c, rest);
    assert |next[1].asns| == 1;
    hide PutData, PutHead, PutAll, PackRun, JoinedAsns, ThreeApart, Rest;
    HeadBytes(s, next, wide);
    PutAllStep(p, wide);
    assert [a] + ([b] + [c]) == [a, b] + [c];
  }

  /** Whatever the numbers, the bytes left over do not parse. */
  lemma PackTwoBreaks(a: Asn, b: Asn, c: Asn)
    ensures var bytes := PutAll(ThreeApart(a, b, c), true);
            |bytes| == 14 && bytes[1] == 2 && ParsePath(bytes, |bytes|, true) == None
  {
    assert PackRun(Segment(AsSequence, [a]), []) == 0 && PutAll([], true) == [];
    assert ThreeApart(a, b, c) + [] == ThreeApart(a, b, c);
    hide PutData, PutAll, PackRun;
    ThreePacked(a, b, c, [], true);
    BadRest(PutAll(ThreeApart(a, b, c), true));
  }

  lemma BadRest(b: seq<Byte>)
    requires |b| == 14 && b[1] == 2
    ensures ParsePath(b, 14, true) == None
  {
    assert b[..14] == b;
    assert GetSegments(b[10..], true).None?;
  }
}
