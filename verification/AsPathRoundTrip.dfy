/** Which AS paths come back from the wire, packing included (aspath_put and assegments_parse in
    bgpd/bgp_aspath.c).

    A path can be damaged in two ways: a segment of more than 510 numbers repeats its first 255, and
    a segment that takes in more than one other gets too small a length.  Neither goes unnoticed
    alone; `AsPathSlip` shows that the two can cancel. */
module AsPathRoundTrip {
  import opened Wrappers
  import opened Bytes
  import opened Seqs
  import opened AsPath
  import opened AsPathWire
  import opened AsPathPacking
  import opened AsPathMisread
  import opened AsPathHeads

  // ----- parsing what was written ---------------------------------------------------

  predicate Even(n: nat) {
    n % 2 == 0
  }

  lemma EvenSum(a: nat, b: nat)
    requires Even(a) && Even(b)
    ensures Even(a + b)
  {
  }

  lemma EvenSpan(n: nat, wide: bool)
    ensures Even(Span(n, wide))
  {
  }

  lemma EvenChunks(s: Segment, wide: bool)
    ensures Even(|PutChunks(s, 0, wide)|)
  {
    hide PutChunks;
    PutChunksEven(s, 0, wide);
  }

  lemma PutFirstEven(p: Path, wide: bool)
    requires p != []
    ensures Even(|PutFirst(p, wide)|)
  {
    var s, next, k := p[0], p[1..], Taken(p);
    PackedSize(next, k, wide);
    hide PutData, PutChunks, PackedData, PackedCount, PackRun, Even, Span;
    if k == 0 {
      EvenChunks(s, wide);
    } else {
      EvenSpan(|s.asns|, wide);
      EvenSpan(PackedCount(next, k), wide);
      EvenTwo();
      EvenSum(2, Span(|s.asns|, wide));
      EvenSum(2 + Span(|s.asns|, wide), Span(PackedCount(next, k), wide));
    }
  }

  lemma EvenTwo()
    ensures Even(2)
  {
  }

  lemma {:induction false} PutAllEven(p: Path, wide: bool)
    ensures Even(|PutAll(p, wide)|)
    decreases |p|
  {
    if p != [] {
      hide PutFirst, Rest, PutAll, Even;
      PutAllEven(Rest(p), wide);
      PutFirstEven(p, wide);
      PutAllStep(p, wide);
      EvenSum(|PutFirst(p, wide)|, |PutAll(Rest(p), wide)|);
    }
  }

  lemma ParseIs(p: Path, wide: bool)
    requires p != []
    ensures var b := PutAll(p, wide);
            var raw := GetSegments(b, wide);
            ParsePath(b, |b|, wide) == if raw.None? then None else Some(Normalise(raw.value))
  {
    PutAllEven(p, wide);
    PutAllStep(p, wide);
    hide PutAll, GetSegments, Normalise;
    var b := PutAll(p, wide);
    assert b[..|b|] == b;
  }

  lemma {:induction false} ParsedNoEmpty(b: seq<Byte>, wide: bool)
    requires GetSegments(b, wide).Some?
    ensures NoEmptySegment(GetSegments(b, wide).value)
    decreases |b|
  {
    if b != [] {
      ParsedHead(b, wide);
      ParsedNoEmpty(b[2 + Span(b[1], wide)..], wide);
      hide GetSegments, GetData;
    }
  }

  // ----- back from the wire ---------------------------------------------------------

  /** The peer parses the normal form of the wire path. */
  predicate ComesBack(p: Path, wide: bool) {
    var b := PutAll(p, wide);
    ParsePath(b, |b|, wide) == Some(Normalise(WirePath(p, wide)))
  }

  lemma ComesBackIs(p: Path, wide: bool)
    requires NoEmptySegment(p)
    ensures ComesBack(p, wide) <==> Reads(PutAll(p, wide), Meaning(WirePath(p, wide)), wide)
  {
    if p == [] {
      assert WirePath(p, wide) == [];
    } else {
      hide PutAll, GetSegments, Normalise, Meaning, ParsePath, NoEmptySegment, WirePath;
      ParseIs(p, wide);
      var raw := GetSegments(PutAll(p, wide), wide);
      if raw.Some? {
        ParsedNoEmpty(PutAll(p, wide), wide);
        WireNoEmpty(p, wide);
        NormaliseCanonical(raw.value, WirePath(p, wide));
      }
    }
  }

  /** A segment that is written in chunks, and what follows. */
  lemma ReadsChunks(s: Segment, after: seq<Byte>, wide: bool)
    requires s.asns != []
    ensures var r, more := GetSegments(PutChunks(s, 0, wide) + after, wide), GetSegments(after, wide);
            && (r.Some? <==> more.Some?)
            && (r.Some? ==> Meaning(r.value) == Meaning(Cut(WireSegment(s, wide), 0)) + Meaning(more.value))
  {
    CutRoundTrip(s, 0, after, wide);
    hide PutChunks, GetSegments, Cut, WireSegment, Meaning;
    var more := GetSegments(after, wide);
    if more.Some? {
      MeaningConcat(Cut(WireSegment(s, wide), 0), more.value);
    }
  }

  predicate NoHops(d: seq<Item>) {
    forall i :: 0 <= i < |d| ==> !d[i].Hop?
  }

  lemma {:induction false} CutNoHops(s: Segment, written: nat)
    requires !s.kind.AsSequence? && written <= |s.asns|
    ensures NoHops(Meaning(Cut(s, written)))
    decreases |s.asns| - written
  {
    if |s.asns| - written > AS_SEGMENT_MAX {
      CutNoHops(s, written + AS_SEGMENT_MAX);
      MeaningCons(s.(asns := s.asns[..AS_SEGMENT_MAX]), Cut(s, written + AS_SEGMENT_MAX));
    } else {
      MeaningOne(s.(asns := s.asns[written..]));
    }
  }

  lemma FirstIsHop(p: Path, wide: bool)
    requires p != [] && p[0].kind.AsSequence? && p[0].asns != []
    ensures Meaning(WirePath(p, wide)) != [] && Meaning(WirePath(p, wide))[0].Hop?
  {
    var w := WirePath(p, wide);
    assert w[0].kind.AsSequence? && w[0].asns != [];
    assert Items(w[0])[0].Hop?;
  }

  /** The first segment is not packed into: what is written and meant, for it and for the rest. */
  lemma FirstApart(p: Path, wide: bool)
    requires p != [] && Taken(p) == 0
    ensures PutAll(p, wide) == PutChunks(p[0], 0, wide) + PutAll(Rest(p), wide)
    ensures Meaning(WirePath(p, wide)) == Items(WireSegment(p[0], wide)) + Meaning(WirePath(Rest(p), wide))
    ensures PacksOneAtMost(p) <==> PacksOneAtMost(Rest(p))
  {
    assert PutFirst(p, wide) == PutChunks(p[0], 0, wide);
    hide PutFirst, PutChunks, PutAll, Items, Meaning, WireSegment, WirePath, PacksOneAtMost, Rest, JoinedFirst;
    PutAllStep(p, wide);
    WireRest(p, wide);
    FirstMeaning(WirePath(p, wide));
    NoneJoined(p);
    PacksStep(p);
  }

  /** Items too many in front that are not hops: the rest of the path cannot make up for them. */
  lemma {:induction false} ExtraItems(d: seq<Item>, p: Path, wide: bool)
    requires NoEmptySegment(p) && !PacksOneAtMost(p) && d != [] && NoHops(d)
    ensures var r := GetSegments(PutAll(p, wide), wide); r.Some? ==> d + Meaning(r.value) != Meaning(WirePath(p, wide))
    decreases |p|
  {
    assert p != [];
    hide PutAll, GetSegments, Meaning, Items, WirePath, WireSegment, Cut, PutChunks, PacksOneAtMost;
    if p[0].kind.AsSequence? {
      FirstIsHop(p, wide);
      NotHopFirst(d, p, wide);
    } else {
      assert Taken(p) == 0;
      hide Taken, Rest, NoEmptySegment;
      NoEmptyRest(p);
      FirstApart(p, wide);
      var r, rest := GetSegments(PutAll(p, wide), wide), GetSegments(PutAll(Rest(p), wide), wide);
      ReadsChunks(p[0], PutAll(Rest(p), wide), wide);
      if r.Some? {
        var c := Meaning(Cut(WireSegment(p[0], wide), 0));
        CutSetItems(p[0], wide);
        var d' := DropFirst(d, c, Meaning(rest.value), Items(WireSegment(p[0], wide)), Meaning(WirePath(Rest(p), wide)));
        ExtraItems(d', Rest(p), wide);
      }
    }
  }

  lemma NotHopFirst(d: seq<Item>, p: Path, wide: bool)
    requires d != [] && NoHops(d) && Meaning(WirePath(p, wide)) != [] && Meaning(WirePath(p, wide))[0].Hop?
    ensures var r := GetSegments(PutAll(p, wide), wide); r.Some? ==> d + Meaning(r.value) != Meaning(WirePath(p, wide))
  {
    hide PutAll, GetSegments, Meaning, WirePath;
    var r := GetSegments(PutAll(p, wide), wide);
    assert r.Some? ==> (d + Meaning(r.value))[0] == d[0];
  }

  lemma CutSetItems(s: Segment, wide: bool)
    requires !s.kind.AsSequence?
    ensures var c := Meaning(Cut(WireSegment(s, wide), 0));
            |Items(WireSegment(s, wide))| == 1 && |c| >= 1 && NoHops(c) && (|c| == 1 ==> Wireable(WireSegment(s, wide)))
  {
    var w := WireSegment(s, wide);
    CutOtherMeaning(w, 0);
    CutNoHops(w, 0);
  }

  /** Items in front, one of which is accounted for. */
  lemma DropFirst(d: seq<Item>, c: seq<Item>, x: seq<Item>, i: seq<Item>, y: seq<Item>) returns (d': seq<Item>)
    requires |c| >= 1 && |i| == 1 && NoHops(d) && NoHops(c)
    ensures NoHops(d') && |d'| == |d| + |c| - 1
    ensures d + (c + x) == i + y ==> d' + x == y
  {
    d' := (d + c)[1..];
    if d + (c + x) == i + y {
      AppendAssoc(d, c, x);
      assert (d + c) + x == [(d + c)[0]] + (d' + x);
      assert (i + y)[1..] == y && ([(d + c)[0]] + (d' + x))[1..] == d' + x;
    }
  }

  /** The first segment does not survive being cut, and a wrong length follows. */
  lemma FirstLost(p: Path, wide: bool)
    requires NoEmptySegment(p) && p != [] && !PacksOneAtMost(p) && Taken(p) == 0
    requires !Wireable(WireSegment(p[0], wide))
    ensures !Reads(PutAll(p, wide), Meaning(WirePath(p, wide)), wide)
  {
    hide PutAll, GetSegments, Meaning, Items, WirePath, WireSegment, Cut, PutChunks, PacksOneAtMost, Taken, Rest, Wireable, NoEmptySegment;
    NoEmptyRest(p);
    FirstApart(p, wide);
    var r, rest := GetSegments(PutAll(p, wide), wide), GetSegments(PutAll(Rest(p), wide), wide);
    ReadsChunks(p[0], PutAll(Rest(p), wide), wide);
    var w := WireSegment(p[0], wide);
    var c, m := Meaning(Cut(w, 0)), Meaning(WirePath(Rest(p), wide));
    CutMeaning(w);
    if r.Some? {
      if p[0].kind.AsSequence? {
        CutSameLength(p[0], wide);
        assert (c + Meaning(rest.value))[..|c|] == c && (Items(w) + m)[..|c|] == Items(w);
      } else {
        CutSetItems(p[0], wide);
        var d' := DropFirst([], c, Meaning(rest.value), Items(w), m);
        assert [] + (c + Meaning(rest.value)) == c + Meaning(rest.value);
        ExtraItems(d', Rest(p), wide);
      }
    }
  }

  lemma CutSameLength(s: Segment, wide: bool)
    requires s.kind.AsSequence?
    ensures |Meaning(Cut(WireSegment(s, wide), 0))| == |Items(WireSegment(s, wide))|
  {
    CutSequenceMeaning(WireSegment(s, wide), 0);
  }

  // ----- a wrong length, up to the end of the AS_SEQUENCEs --------------------------

  /** An AS_SEQUENCE that does not survive being cut comes before anything else than an
      AS_SEQUENCE. */
  predicate LostInRun(p: Path, wide: bool) {
    p != [] && p[0].kind.AsSequence? && (!Wireable(WireSegment(p[0], wide)) || LostInRun(p[1..], wide))
  }

  /** The first segment that takes in more than one other comes after segments that all survive
      being cut, and is followed, with only AS_SEQUENCEs between them, by one that does not. */
  predicate CanSlip(p: Path, wide: bool)
    decreases |p|
  {
    && p != [] && Wireable(WireSegment(p[0], wide))
    && if Taken(p) <= 1 then CanSlip(Rest(p), wide) else LostInRun(p[1..], wide)
  }

  function RunLength(p: Path): (j: nat)
    ensures j <= |p|
    ensures j < |p| ==> !p[j].kind.AsSequence?
  {
    if p == [] || !p[0].kind.AsSequence? then 0 else 1 + RunLength(p[1..])
  }

  lemma {:induction false} RunWireable(p: Path, wide: bool)
    requires !LostInRun(p, wide)
    ensures AllWireable(WirePath(p[..RunLength(p)], wide))
  {
    if p != [] && p[0].kind.AsSequence? {
      var j := RunLength(p[1..]);
      RunWireable(p[1..], wide);
      assert p[..1 + j] == [p[0]] + p[1..][..j];
      hide Wireable, WirePath, WireSegment, AllWireable;
      WireCons(p[0], p[1..][..j], wide);
      WireableCons(WireSegment(p[0], wide), WirePath(p[1..][..j], wide));
    }
  }

  lemma {:induction false} PackRunApart(s: Segment, next: Path, rest: Path)
    requires rest == [] || !rest[0].kind.AsSequence?
    ensures PackRun(s, next + rest) == PackRun(s, next)
  {
    if next == [] {
      assert next + rest == rest;
    } else {
      PackRunApart(s, next[1..], rest);
      assert (next + rest)[1..] == next[1..] + rest;
    }
  }

  lemma {:induction false} PackedDataApart(next: Path, rest: Path, k: nat, wide: bool)
    requires k <= |next|
    ensures PackedData(next + rest, k, wide) == PackedData(next, k, wide)
  {
    if k > 0 {
      assert (next + rest)[1..] == next[1..] + rest;
      PackedDataApart(next[1..], rest, k - 1, wide);
    }
  }

  lemma FirstAway(p: Path, rest: Path, wide: bool)
    requires p != [] && (rest == [] || !rest[0].kind.AsSequence?)
    ensures PutFirst(p + rest, wide) == PutFirst(p, wide)
    ensures Taken(p + rest) == Taken(p) && Rest(p + rest) == Rest(p) + rest
  {
    var k, q := PackRun(p[0], p[1..]), p + rest;
    assert q[0] == p[0] && q[1..] == p[1..] + rest && q[1 + k..] == p[1 + k..] + rest;
    PackRunApart(p[0], p[1..], rest);
    hide PackRun, PutChunks, PutData;
    PackedDataApart(p[1..], rest, k, wide);
  }

  /** Nothing is packed across a segment that is not an AS_SEQUENCE. */
  lemma {:induction false} PutAllApart(p: Path, rest: Path, wide: bool)
    requires rest == [] || !rest[0].kind.AsSequence?
    ensures PutAll(p + rest, wide) == PutAll(p, wide) + PutAll(rest, wide)
    decreases |p|
  {
    if p == [] {
      assert p + rest == rest && [] + PutAll(rest, wide) == PutAll(rest, wide);
    } else {
      hide PutAll, PutFirst, Rest, Taken;
      FirstAway(p, rest, wide);
      PutAllApart(Rest(p), rest, wide);
      PutAllStep(p, wide);
      PutAllStep(p + rest, wide);
      AppendAssoc(PutFirst(p, wide), PutAll(Rest(p), wide), PutAll(rest, wide));
    }
  }

  lemma ApartFromRun(p: Path, wide: bool)
    requires p == [] || !p[0].kind.AsSequence?
    ensures Apart(PutAll(p, wide))
  {
  }

  /** A segment that takes in more than one other, and everything up to the end of the
      AS_SEQUENCEs behind it. */
  lemma RunMisread(p: Path, rest: Path, wide: bool)
    requires NoEmptySegment(p) && !PacksOneAtMost(p) && AllWireable(WirePath(p, wide))
    requires rest == [] || !rest[0].kind.AsSequence?
    ensures !Reads(PutAll(p + rest, wide), Meaning(WirePath(p + rest, wide)), wide)
  {
    hide PutAll, Meaning, Meant, Reads, HeadsOf, Stream, HeadsOk, Exact, WirePath, AllWireable, Apart;
    hide PacksOneAtMost, NoEmptySegment;
    PutAllApart(p, rest, wide);
    ApartFromRun(rest, wide);
    WireBoth(p, rest, wide);
    MeaningConcat(WirePath(p, wide), WirePath(rest, wide));
    HeadsStream(p, PutAll(rest, wide), wide);
    HeadsMeant(p, Meaning(WirePath(rest, wide)), wide);
    HeadsExact(p, wide);
    ReadAsMeant(HeadsOf(p, wide), PutAll(rest, wide), Meaning(WirePath(rest, wide)), wide);
  }

  lemma WireBoth(p: Path, q: Path, wide: bool)
    ensures WirePath(p + q, wide) == WirePath(p, wide) + WirePath(q, wide)
  {
    hide WireAsns;
  }

  lemma FirstPacksMore(p: Path, wide: bool)
    requires NoEmptySegment(p) && p != [] && Taken(p) > 1 && !LostInRun(p[1..], wide)
    ensures !Reads(PutAll(p, wide), Meaning(WirePath(p, wide)), wide)
  {
    var j := RunLength(p);
    var run, rest := p[..j], p[j..];
    ShortWireable(p[0], wide);
    assert j > 0 && !LostInRun(p, wide);
    assert p == run + rest && NoEmptySegment(run);
    hide PutAll, Meaning, WirePath, WireSegment, Reads, Taken, Rest, AllWireable, PacksOneAtMost, LostInRun, Wireable, RunLength;
    RunWireable(p, wide);
    FirstAway(run, rest, wide);
    PacksStep(run);
    RunMisread(run, rest, wide);
  }

  /** The first segment survives, with what is packed into it. */
  lemma FirstSurvives(p: Path, wide: bool)
    requires NoEmptySegment(p) && p != [] && Taken(p) <= 1 && Wireable(WireSegment(p[0], wide))
    ensures Reads(PutAll(p, wide), Meaning(WirePath(p, wide)), wide)
       <==> Reads(PutAll(Rest(p), wide), Meaning(WirePath(Rest(p), wide)), wide)
  {
    hide Stream, FirstHeads, Taken, Rest, Meant, Meaning, WirePath, WireSegment, JoinedFirst;
    hide HeadsOk, Exact, Wireable, PutFirst, PutAll, NoEmptySegment, Reads, Items;
    var m := Meaning(WirePath(Rest(p), wide));
    FirstHeadOk(p, wide);
    FirstStream(p, PutAll(Rest(p), wide), wide);
    PutAllStep(p, wide);
    FirstMeant(p, m, wide);
    WireRest(p, wide);
    FirstMeaning(WirePath(p, wide));
    ReadExact(FirstHeads(p, wide), PutAll(Rest(p), wide), m, wide);
  }

  /** Right lengths are read right, whatever follows. */
  lemma {:induction false} ReadExact(hs: seq<Head>, after: seq<Byte>, tail: seq<Item>, wide: bool)
    requires HeadsOk(hs, wide) && Exact(hs)
    ensures Reads(Stream(hs, after, wide), Meant(hs, tail), wide) <==> Reads(after, tail, wide)
  {
    if hs != [] {
      HeadsTail(hs, wide);
      hide Reads, Stream, Meant, HeadsOk, Exact;
      FirstRead(hs, after, tail, wide);
      ReadExact(hs[1..], after, tail, wide);
    }
  }

  /** Unless it can slip, a path with a wrong length is not read as it was meant. */
  lemma {:induction false} NeverBack(p: Path, wide: bool)
    requires NoEmptySegment(p) && !PacksOneAtMost(p) && !CanSlip(p, wide)
    ensures !Reads(PutAll(p, wide), Meaning(WirePath(p, wide)), wide)
    decreases |p|
  {
    assert p != [];
    hide PutAll, Meaning, WirePath, WireSegment, Reads, Taken, Rest, Wireable, PacksOneAtMost, NoEmptySegment, LostInRun;
    PacksStep(p);
    NoEmptyRest(p);
    if Taken(p) > 1 {
      ShortWireable(p[0], wide);
      FirstPacksMore(p, wide);
    } else if !Wireable(WireSegment(p[0], wide)) {
      NoneTaken(p, wide);
      FirstLost(p, wide);
    } else {
      FirstSurvives(p, wide);
      NeverBack(Rest(p), wide);
    }
  }

  lemma NoneTaken(p: Path, wide: bool)
    requires p != [] && !Wireable(WireSegment(p[0], wide))
    ensures Taken(p) == 0
  {
  }

  lemma {:induction false} LostNotWireable(p: Path, wide: bool)
    requires LostInRun(p, wide)
    ensures !AllWireable(WirePath(p, wide))
  {
    hide Wireable, WirePath, WireSegment, AllWireable;
    WireableFirst(p, wide);
    if Wireable(WireSegment(p[0], wide)) {
      LostNotWireable(p[1..], wide);
    }
  }

  /** A path that can slip fails on both counts. */
  lemma {:induction false} SlipsFailBoth(p: Path, wide: bool)
    requires CanSlip(p, wide)
    ensures !PacksOneAtMost(p) && !AllWireable(WirePath(p, wide))
    decreases |p|
  {
    hide Wireable, WirePath, WireSegment, AllWireable, Taken, Rest, PacksOneAtMost;
    PacksStep(p);
    if Taken(p) <= 1 {
      SlipsFailBoth(Rest(p), wide);
      WireableRest(p, wide);
    } else {
      LostNotWireable(p[1..], wide);
      WireableFirst(p, wide);
    }
  }

  /** Main result, for every path without empty segments.  A path comes back if no segment takes in
      more than one other and every segment survives being cut; if it comes back, both are so or
      neither is; and unless it can slip, it comes back exactly if both are so. */
  lemma RoundTripExact(p: Path, wide: bool)
    requires NoEmptySegment(p)
    ensures PacksOneAtMost(p) && AllWireable(WirePath(p, wide)) ==> ComesBack(p, wide)
    ensures ComesBack(p, wide) ==> (PacksOneAtMost(p) <==> AllWireable(WirePath(p, wide)))
    ensures !CanSlip(p, wide) ==> (ComesBack(p, wide) <==> PacksOneAtMost(p) && AllWireable(WirePath(p, wide)))
  {
    if PacksOneAtMost(p) {
      PackedRoundTrip(p, wide);
      PackedWireable(p, wide);
      hide ParsePath, PutAll, Normalise, PacksOneAtMost, AllWireable, WirePath, CanSlip, Packed;
    } else {
      hide PacksOneAtMost, AllWireable, WirePath, CanSlip, Reads, ComesBack, PutAll, Meaning;
      if CanSlip(p, wide) {
        SlipsFailBoth(p, wide);
      } else {
        NeverBack(p, wide);
        ComesBackIs(p, wide);
      }
    }
  }

  /** Where every segment survives being cut, a path comes back exactly when no segment takes in
      more than one other: wrong lengths alone never go unnoticed. */
  lemma WrittenRoundTrip(p: Path, wide: bool)
    requires NoEmptySegment(p) && AllWireable(WirePath(p, wide))
    ensures ComesBack(p, wide) <==> PacksOneAtMost(p)
  {
    hide PacksOneAtMost, AllWireable, WirePath, CanSlip, ComesBack;
    RoundTripExact(p, wide);
  }
}
