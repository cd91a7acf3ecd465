/** AS paths that are written wrong in two ways and come back all the same (bgpd/bgp_aspath.c).

    A segment that takes in two others gets too small a length, so that the parser runs ahead by one
    number.  A long segment behind it, which the writer sends in three chunks with the first 255
    numbers twice, lets it fall back into step, if the numbers are right. */
module AsPathSlip {
  import opened Bytes
  import opened Seqs
  import opened AsPath
  import opened AsPathWire
  import opened AsPathPacking
  import opened AsPathMisread
  import opened AsPathHeads
  import opened AsPathRoundTrip

  // ----- two wrongs -----------------------------------------------------------------

  /** A number that ends, and in the 4-byte form also begins, like the header of an AS_SEQUENCE. */
  function Slip(n: Byte, wide: bool): Asn {
    if wide then 0x2FF_0200 + n else 0x200 + n
  }

  /** The numbers of a long segment that come round to such a number where a chunk ends. */
  function LongSlip(t: seq<Asn>, u: seq<Asn>, wide: bool): seq<Asn> {
    t + [Slip(255, wide)] + t + [Slip(254, wide)] + u
  }

  /** Two segments packed into another, and a long one. */
  function Slipping(a: Asn, b: Asn, t: seq<Asn>, u: seq<Asn>, wide: bool): Path {
    [Segment(AsSequence, [a]), Segment(AsSequence, [b]), Segment(AsSequence, [Slip(255, wide)]),
     Segment(AsSequence, LongSlip(t, u, wide))]
  }

  /** The segments that are read. */
  function Slipped(a: Asn, b: Asn, t: seq<Asn>, u: seq<Asn>, wide: bool): Path {
    [Segment(AsSequence, [a, b]), Segment(AsSequence, [Slip(255, wide)] + t),
     Segment(AsSequence, [Slip(255, wide)] + t), Segment(AsSequence, [Slip(254, wide)] + u)]
  }

  /** Before a header such a number is taken for a header, and the header for a number. */
  lemma SlipOne(n: Byte, wide: bool)
    ensures PutAsn(Slip(255, wide), wide) + PutHeader(AsSequence, n)
         == PutHeader(AsSequence, 255) + PutAsn(Slip(n, wide), wide)
  {
  }

  lemma SlipChunk(n: Byte, v: seq<Asn>, r: seq<Byte>, wide: bool)
    ensures PutAsn(Slip(255, wide), wide) + (PutHeader(AsSequence, n) + (PutData(v, wide) + r))
         == PutHeader(AsSequence, 255) + (PutData([Slip(n, wide)] + v, wide) + r)
  {
    var x, y, h, d := PutAsn(Slip(255, wide), wide), PutAsn(Slip(n, wide), wide), PutHeader(AsSequence, n), PutData(v, wide);
    SlipOne(n, wide);
    assert ([Slip(n, wide)] + v)[1..] == v;
    assert PutData([Slip(n, wide)] + v, wide) == y + d;
    hide PutData, PutAsn, Slip, PutHeader;
    AppendAssoc(x, h, d + r);
    AppendAssoc(PutHeader(AsSequence, 255), y, d + r);
    AppendAssoc(y, d, r);
  }

  lemma DataEnds(t: seq<Asn>, x: Asn, r: seq<Byte>, wide: bool)
    ensures PutData(t + [x], wide) + r == PutData(t, wide) + (PutAsn(x, wide) + r)
  {
    PutDataConcat(t, [x], wide);
    assert [x][1..] == [] && PutAsn(x, wide) + [] == PutAsn(x, wide);
    assert PutData([x], wide) == PutAsn(x, wide);
    hide PutData, PutAsn;
    AppendAssoc(PutData(t, wide), PutAsn(x, wide), r);
  }

  lemma LongSlipParts(t: seq<Asn>, u: seq<Asn>, wide: bool)
    requires |t| == 254 && |u| == 254
    ensures var l := LongSlip(t, u, wide);
            |l| == 764 && l[..255] == t + [Slip(255, wide)] && l[510..] == u && l[254] == Slip(255, wide) && l[509] == Slip(254, wide)
  {
    hide Slip;
  }

  /** The three chunks of the long segment. */
  lemma LongSlipChunks(t: seq<Asn>, u: seq<Asn>, r: seq<Byte>, wide: bool)
    requires |t| == 254 && |u| == 254
    ensures var l := Segment(AsSequence, LongSlip(t, u, wide));
            var c, d := PutHeader(AsSequence, 255), PutData(t + [Slip(255, wide)], wide);
            PutChunks(l, 0, wide) + r == c + (d + (c + (d + (PutHeader(AsSequence, 254) + (PutData(u, wide) + r)))))
  {
    var l := Segment(AsSequence, LongSlip(t, u, wide));
    var c, d := PutHeader(AsSequence, 255), PutData(t + [Slip(255, wide)], wide);
    var e, v := PutHeader(AsSequence, 254), PutData(u, wide);
    LongSlipParts(t, u, wide);
    hide PutData, LongSlip, Slip;
    assert PutChunks(l, 510, wide) == e + v;
    assert PutChunks(l, 255, wide) == (c + d) + (e + v);
    assert PutChunks(l, 0, wide) == (c + d) + ((c + d) + (e + v));
    hide PutChunks, PutHeader;
    AppendAssoc(c + d, (c + d) + (e + v), r);
    AppendAssoc(c + d, e + v, r);
    AppendAssoc(e, v, r);
    AppendAssoc(c, d, e + (v + r));
    AppendAssoc(c, d, c + (d + (e + (v + r))));
  }

  lemma SlippingPacks(a: Asn, b: Asn, t: seq<Asn>, u: seq<Asn>, q: Path, wide: bool)
    requires |t| == 254 && |u| == 254
    ensures var p := Slipping(a, b, t, u, wide) + q;
            var l := Segment(AsSequence, LongSlip(t, u, wide));
            && Taken(p) == 2
            && PutAll(p, wide)
            == (PutHeader(AsSequence, 2) + PutData([a, b] + [Slip(255, wide)], wide)) + (PutChunks(l, 0, wide) + PutAll(q, wide))
  {
    var l := Segment(AsSequence, LongSlip(t, u, wide));
    LongSlipParts(t, u, wide);
    hide LongSlip, Slip, PutAll, PutChunks, PutData, PutHeader, PackRun, Taken;
    LongNotTaken(Segment(AsSequence, [a]), l, q);
    ThreePacked(a, b, Slip(255, wide), [l] + q, wide);
    LongApart(l, q, wide);
    assert Slipping(a, b, t, u, wide) + q == ThreeApart(a, b, Slip(255, wide)) + ([l] + q);
  }

  lemma LongNotTaken(s: Segment, l: Segment, q: Path)
    requires |l.asns| > AS_SEGMENT_MAX
    ensures PackRun(s, [l] + q) == 0
  {
  }

  lemma LongApart(l: Segment, q: Path, wide: bool)
    requires |l.asns| > AS_SEGMENT_MAX
    ensures PutAll([l] + q, wide) == PutChunks(l, 0, wide) + PutAll(q, wide)
  {
    var p := [l] + q;
    assert p[0] == l && p[1..] == q;
    hide PutChunks;
  }

  lemma ShortPath(s: Segment, rest: Path, wide: bool)
    requires |s.asns| <= AS_SEGMENT_MAX
    ensures PutPath([s] + rest, wide) == PutHeader(s.kind, |s.asns|) + (PutData(s.asns, wide) + PutPath(rest, wide))
  {
    assert ([s] + rest)[1..] == rest;
    ShortChunk(s, wide);
    hide PutData, PutChunks;
    AppendAssoc(PutHeader(s.kind, |s.asns|), PutData(s.asns, wide), PutPath(rest, wide));
  }

  lemma SlippedPath(a: Asn, b: Asn, t: seq<Asn>, u: seq<Asn>, q: Path, wide: bool)
    requires |t| == 254 && |u| == 254
    ensures var c, d := PutHeader(AsSequence, 255), PutData([Slip(255, wide)] + t, wide);
            PutPath(Slipped(a, b, t, u, wide) + q, wide)
            == PutHeader(AsSequence, 2) + (PutData([a, b], wide)
               + (c + (d + (c + (d + (c + (PutData([Slip(254, wide)] + u, wide) + PutPath(q, wide))))))))
  {
    var s0, s1 := Segment(AsSequence, [a, b]), Segment(AsSequence, [Slip(255, wide)] + t);
    var s2 := Segment(AsSequence, [Slip(254, wide)] + u);
    hide PutData, PutPath, Slip;
    ShortPath(s2, q, wide);
    ShortPath(s1, [s2] + q, wide);
    ShortPath(s1, [s1] + ([s2] + q), wide);
    ShortPath(s0, [s1] + ([s1] + ([s2] + q)), wide);
    assert Slipped(a, b, t, u, wide) + q == [s0] + ([s1] + ([s1] + ([s2] + q)));
  }

  lemma SlippedBytes(a: Asn, b: Asn, t: seq<Asn>, u: seq<Asn>, q: Path, q': Path, wide: bool)
    requires |t| == 254 && |u| == 254 && PutAll(q, wide) == PutPath(q', wide)
    ensures PutAll(Slipping(a, b, t, u, wide) + q, wide) == PutPath(Slipped(a, b, t, u, wide) + q', wide)
  {
    hide PutData, PutPath, PutAll, PutChunks, PutAsn, Slip, LongSlip, Slipping, Slipped, PutHeader, PackRun;
    var r, x := PutPath(q', wide), Slip(255, wide);
    var c, d := PutHeader(AsSequence, 255), PutData(t + [x], wide);
    SlippingPacks(a, b, t, u, q, wide);
    LongSlipChunks(t, u, r, wide);
    SlippedPath(a, b, t, u, q', wide);
    var r3 := PutHeader(AsSequence, 254) + (PutData(u, wide) + r);
    SlipChunk(254, u, r, wide);
    DataEnds(t, x, r3, wide);
    SlipChunk(255, t, PutAsn(x, wide) + r3, wide);
    var r2 := c + (d + r3);
    DataEnds(t, x, r2, wide);
    SlipChunk(255, t, PutAsn(x, wide) + r2, wide);
    var r1 := c + (d + r2);
    DataEnds([a, b], x, r1, wide);
    AppendAssoc(PutHeader(AsSequence, 2), PutData([a, b] + [x], wide), r1);
  }

  lemma ConsMeaning(x: seq<Asn>, rest: Path, y: seq<Asn>, wide: bool)
    requires Meaning(WirePath(rest, wide)) == Hops(WireAsns(y, wide))
    ensures Meaning(WirePath([Segment(AsSequence, x)] + rest, wide)) == Hops(WireAsns(x + y, wide))
  {
    var s := Segment(AsSequence, x);
    WireCons(s, rest, wide);
    MeaningCons(WireSegment(s, wide), WirePath(rest, wide));
    WireConcat(x, y, wide);
    HopsConcat(WireAsns(x, wide), WireAsns(y, wide));
    hide Items, Meaning, WirePath, WireAsns;
  }

  lemma FourMeaning(x: seq<Asn>, y: seq<Asn>, z: seq<Asn>, v: seq<Asn>, wide: bool)
    ensures Meaning(WirePath([Segment(AsSequence, x), Segment(AsSequence, y), Segment(AsSequence, z), Segment(AsSequence, v)], wide))
         == Hops(WireAsns(x + (y + (z + v)), wide))
  {
    var a, b, c, d := Segment(AsSequence, x), Segment(AsSequence, y), Segment(AsSequence, z), Segment(AsSequence, v);
    NoMeaning(wide);
    hide Items, Meaning, WirePath, WireAsns;
    ConsMeaning(v, [], [], wide);
    assert v + [] == v && [d] + [] == [d];
    ConsMeaning(z, [d], v, wide);
    ConsMeaning(y, [c] + [d], z + v, wide);
    ConsMeaning(x, [b] + ([c] + [d]), y + (z + v), wide);
    assert [a] + ([b] + ([c] + [d])) == [a, b, c, d];
  }

  lemma NoMeaning(wide: bool)
    ensures Meaning(WirePath([], wide)) == Hops(WireAsns([], wide))
  {
  }

  lemma SlipMeaning(a: Asn, b: Asn, t: seq<Asn>, u: seq<Asn>, wide: bool)
    ensures Meaning(WirePath(Slipping(a, b, t, u, wide), wide)) == Meaning(WirePath(Slipped(a, b, t, u, wide), wide))
  {
    hide Meaning, Items, WirePath, WireAsns, Slip;
    var x, y := [Slip(255, wide)], [Slip(254, wide)];
    FourMeaning([a], [b], x, LongSlip(t, u, wide), wide);
    FourMeaning([a, b], x + t, x + t, y + u, wide);
    assert [a] + ([b] + (x + (t + x + t + y + u))) == [a, b] + ((x + t) + ((x + t) + (y + u)));
  }

  lemma WireableBoth(p: Path, q: Path)
    ensures AllWireable(p + q) <==> AllWireable(p) && AllWireable(q)
  {
    hide Wireable;
    var c := p + q;
    assert forall i :: 0 <= i < |p| ==> c[i] == p[i];
    assert forall i :: 0 <= i < |q| ==> c[|p| + i] == q[i];
    assert forall i :: |p| <= i < |c| ==> c[i] == q[i - |p|];
  }

  lemma SlippedWireable(a: Asn, b: Asn, t: seq<Asn>, u: seq<Asn>, wide: bool)
    requires |t| == 254 && |u| == 254
    ensures AllWireable(WirePath(Slipped(a, b, t, u, wide), wide)) && NoEmptySegment(Slipped(a, b, t, u, wide))
  {
    hide Slip;
  }

  lemma SlippingLost(a: Asn, b: Asn, t: seq<Asn>, u: seq<Asn>, wide: bool)
    requires |t| == 254 && |u| == 254
    ensures !AllWireable(WirePath(Slipping(a, b, t, u, wide), wide)) && NoEmptySegment(Slipping(a, b, t, u, wide))
  {
    var w := WirePath(Slipping(a, b, t, u, wide), wide);
    LongSlipParts(t, u, wide);
    var l := WireAsns(LongSlip(t, u, wide), wide);
    assert w[3] == Segment(AsSequence, l);
    assert l[254] != l[509];
    assert l[255..510][254] != l[..255][254];
    assert !ChunksRepeat(l, 255);
    assert l[0..255] == l[..255];
    assert !Wireable(w[3]);
  }

  /** The two wrongs can cancel: whatever the numbers `a`, `b`, `t` and `u`, and whatever path that
      comes back follows, three segments packed into one and a segment of 764 numbers in three
      chunks are read exactly as they were meant.  The uncounted number is read as a header, each
      chunk header as the number that is due, and the number before it as the next header. */
  lemma SlipsCancel(a: Asn, b: Asn, t: seq<Asn>, u: seq<Asn>, q: Path, wide: bool)
    requires |t| == 254 && |u| == 254
    requires NoEmptySegment(q) && PacksOneAtMost(q) && AllWireable(WirePath(q, wide))
    ensures var p := Slipping(a, b, t, u, wide) + q;
            && NoEmptySegment(p) && !PacksOneAtMost(p) && !AllWireable(WirePath(p, wide))
            && ComesBack(p, wide)
  {
    var p, p' := Slipping(a, b, t, u, wide) + q, Slipped(a, b, t, u, wide) + Packed(q);
    SlippingPacks(a, b, t, u, q, wide);
    PacksStep(p);
    SlippingLost(a, b, t, u, wide);
    SlippedWireable(a, b, t, u, wide);
    PackedNoEmpty(q);
    hide Slipping, Slipped, Packed, PacksOneAtMost, WirePath, AllWireable, PutAll, PutPath, ParsePath, Normalise, Meaning;
    hide PackRun;
    PackingExact(q, wide);
    SlippedBytes(a, b, t, u, q, Packed(q), wide);
    WireBoth(Slipping(a, b, t, u, wide), q, wide);
    WireBoth(Slipped(a, b, t, u, wide), Packed(q), wide);
    WireableBoth(WirePath(Slipping(a, b, t, u, wide), wide), WirePath(q, wide));
    WireableBoth(WirePath(Slipped(a, b, t, u, wide), wide), WirePath(Packed(q), wide));
    PackedWireable(q, wide);
    SlippedSame(a, b, t, u, q, wide);
    PlainRoundTrip(p', wide);
  }

  lemma SlippedSame(a: Asn, b: Asn, t: seq<Asn>, u: seq<Asn>, q: Path, wide: bool)
    requires NoEmptySegment(Slipping(a, b, t, u, wide) + q)
    requires NoEmptySegment(Slipped(a, b, t, u, wide) + Packed(q))
    ensures Normalise(WirePath(Slipping(a, b, t, u, wide) + q, wide)) == Normalise(WirePath(Slipped(a, b, t, u, wide) + Packed(q), wide))
  {
    hide Slipping, Slipped, Packed, WirePath, Normalise, Meaning, NoEmptySegment;
    var s, s', w := Slipping(a, b, t, u, wide), Slipped(a, b, t, u, wide), WirePath(q, wide);
    WireBoth(s, q, wide);
    WireBoth(s', Packed(q), wide);
    MeaningConcat(WirePath(s, wide), w);
    MeaningConcat(WirePath(s', wide), WirePath(Packed(q), wide));
    SlipMeaning(a, b, t, u, wide);
    WirePacked(q, wide);
    PackedMeaning(w);
    WireNoEmpty(s + q, wide);
    WireNoEmpty(s' + Packed(q), wide);
    NormaliseCanonical(WirePath(s + q, wide), WirePath(s' + Packed(q), wide));
  }
}
