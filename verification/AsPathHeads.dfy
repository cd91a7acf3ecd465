/** What aspath_put writes for a path, head by head: each chunk of a segment that is not packed into,
    and each segment with what is packed into it (bgpd/bgp_aspath.c). */
module AsPathHeads {
  import opened Bytes
  import opened Seqs
  import opened AsPath
  import opened AsPathWire
  import opened AsPathPacking
  import opened AsPathMisread

  // ----- what is written, head by head ----------------------------------------------

  /** The chunks of a segment, each with a right length. */
  function ChunkHeads(s: Segment, written: nat): seq<Head>
    requires written <= |s.asns|
    decreases |s.asns| - written
  {
    if |s.asns| - written > AS_SEGMENT_MAX then
      [Head(s.kind, AS_SEGMENT_MAX, s.asns[..AS_SEGMENT_MAX])] + ChunkHeads(s, written + AS_SEGMENT_MAX)
    else
      [Head(s.kind, |s.asns| - written, s.asns[written..])]
  }

  function PackedHead(p: Path, wide: bool): Head
    requires p != [] && Taken(p) > 0
  {
    Head(p[0].kind, |p[0].asns| + |p[Taken(p)].asns|, WireAsns(JoinedFirst(p).asns, wide))
  }

  /** What is written for the first segment and those packed into it. */
  function FirstHeads(p: Path, wide: bool): seq<Head>
    requires p != []
  {
    if Taken(p) == 0 then ChunkHeads(WireSegment(p[0], wide), 0) else [PackedHead(p, wide)]
  }

  /** What is written for a path. */
  function HeadsOf(p: Path, wide: bool): seq<Head>
    decreases |p|
  {
    if p == [] then []
    else FirstHeads(p, wide) + HeadsOf(Rest(p), wide)
  }

  lemma {:induction false} WireData(s: seq<Asn>, wide: bool)
    ensures PutData(WireAsns(s, wide), wide) == PutData(s, wide)
    ensures WireAsns(WireAsns(s, wide), wide) == WireAsns(s, wide)
  {
    if s != [] {
      WireData(s[1..], wide);
      assert WireAsns(s, wide)[1..] == WireAsns(s[1..], wide);
    }
  }

  lemma {:induction false} StreamConcat(a: seq<Head>, b: seq<Head>, after: seq<Byte>, wide: bool)
    ensures Stream(a + b, after, wide) == Stream(a, Stream(b, after, wide), wide)
  {
    hide PutData;
    if a == [] {
      assert a + b == b;
    } else {
      StreamConcat(a[1..], b, after, wide);
      assert (a + b)[1..] == a[1..] + b;
    }
  }

  lemma StreamOne(h: Head, after: seq<Byte>, wide: bool)
    ensures Stream([h], after, wide) == ([TypeCode(h.kind), h.length] + PutData(h.asns, wide)) + after
  {
    hide PutData;
    assert [h][1..] == [];
    AppendAssoc([TypeCode(h.kind), h.length], PutData(h.asns, wide), after);
  }

  lemma {:induction false} ChunkStream(s: Segment, written: nat, after: seq<Byte>, wide: bool)
    requires written <= |s.asns|
    ensures |WireSegment(s, wide).asns| == |s.asns|
    ensures Stream(ChunkHeads(WireSegment(s, wide), written), after, wide) == PutChunks(s, written, wide) + after
    decreases |s.asns| - written
  {
    var w, m := WireSegment(s, wide), AS_SEGMENT_MAX;
    if |s.asns| - written > m {
      ChunkStream(s, written + m, after, wide);
      WireData(s.asns[..m], wide);
      assert w.asns[..m] == WireAsns(s.asns[..m], wide);
      hide PutData, WireAsns, Stream;
      var h := Head(s.kind, m, w.asns[..m]);
      StreamConcat([h], ChunkHeads(w, written + m), after, wide);
      StreamOne(h, PutChunks(s, written + m, wide) + after, wide);
      AppendAssoc(PutHeader(s.kind, m) + PutData(s.asns[..m], wide), PutChunks(s, written + m, wide), after);
    } else {
      WireData(s.asns[written..], wide);
      assert w.asns[written..] == WireAsns(s.asns[written..], wide);
      hide PutData, WireAsns;
      StreamOne(Head(s.kind, |s.asns| - written, w.asns[written..]), after, wide);
    }
  }

  lemma PackedStream(p: Path, after: seq<Byte>, wide: bool)
    requires p != [] && Taken(p) > 0
    ensures Stream([PackedHead(p, wide)], after, wide) == PutFirst(p, wide) + after
  {
    hide PutData, WireAsns, JoinedHead, PutHead, PackRun;
    HeadBytes(p[0], p[1..], wide);
    WireData(JoinedFirst(p).asns, wide);
    StreamOne(PackedHead(p, wide), after, wide);
  }

  lemma FirstStream(p: Path, after: seq<Byte>, wide: bool)
    requires p != []
    ensures Stream(FirstHeads(p, wide), after, wide) == PutFirst(p, wide) + after
  {
    if Taken(p) == 0 {
      ChunkStream(p[0], 0, after, wide);
    } else {
      PackedStream(p, after, wide);
    }
    hide Stream, PutChunks, ChunkHeads, PackedHead, WireSegment;
  }

  lemma {:induction false} HeadsStream(p: Path, after: seq<Byte>, wide: bool)
    ensures Stream(HeadsOf(p, wide), after, wide) == PutAll(p, wide) + after
    decreases |p|
  {
    if p == [] {
      assert [] + after == after;
    } else {
      hide Stream, PutFirst, FirstHeads, Rest, HeadsOf, PutAll;
      var rest := Rest(p);
      HeadsStream(rest, after, wide);
      HeadsOfStep(p, wide);
      PutAllStep(p, wide);
      StreamConcat(FirstHeads(p, wide), HeadsOf(rest, wide), after, wide);
      FirstStream(p, PutAll(rest, wide) + after, wide);
      AppendAssoc(PutFirst(p, wide), PutAll(rest, wide), after);
    }
  }

  lemma HeadsOfStep(p: Path, wide: bool)
    requires p != []
    ensures HeadsOf(p, wide) == FirstHeads(p, wide) + HeadsOf(Rest(p), wide)
  {
    hide FirstHeads, Rest;
  }

  lemma {:induction false} MeantConcat(a: seq<Head>, b: seq<Head>, tail: seq<Item>)
    ensures Meant(a + b, tail) == Meant(a, Meant(b, tail))
  {
    hide Items;
    if a == [] {
      assert a + b == b;
    } else {
      MeantConcat(a[1..], b, tail);
      assert (a + b)[1..] == a[1..] + b;
    }
  }

  lemma MeantOne(h: Head, tail: seq<Item>)
    ensures Meant([h], tail) == Items(SegmentOf(h)) + tail
  {
    assert [h][1..] == [];
  }

  lemma {:induction false} ChunkMeant(s: Segment, written: nat, tail: seq<Item>)
    requires written <= |s.asns|
    ensures Meant(ChunkHeads(s, written), tail) == Meaning(Cut(s, written)) + tail
    decreases |s.asns| - written
  {
    var m := AS_SEGMENT_MAX;
    if |s.asns| - written > m {
      ChunkMeant(s, written + m, tail);
      hide Items, Meant, Meaning;
      var h, c := Head(s.kind, m, s.asns[..m]), s.(asns := s.asns[..m]);
      MeantConcat([h], ChunkHeads(s, written + m), tail);
      MeantOne(h, Meaning(Cut(s, written + m)) + tail);
      MeaningCons(c, Cut(s, written + m));
      AppendAssoc(Items(c), Meaning(Cut(s, written + m)), tail);
    } else {
      MeantOne(Head(s.kind, |s.asns| - written, s.asns[written..]), tail);
      MeaningOne(s.(asns := s.asns[written..]));
    }
  }

  lemma PackedIs(p: Path, wide: bool)
    requires p != [] && Taken(p) > 0
    ensures SegmentOf(PackedHead(p, wide)) == WireSegment(JoinedFirst(p), wide)
  {
  }

  lemma NoneJoined(p: Path)
    requires p != [] && Taken(p) == 0
    ensures JoinedFirst(p) == p[0]
  {
    assert p[0].asns + [] == p[0].asns;
  }

  lemma FirstMeant(p: Path, tail: seq<Item>, wide: bool)
    requires p != [] && Wireable(WireSegment(p[0], wide))
    ensures Meant(FirstHeads(p, wide), tail) == Items(WireSegment(JoinedFirst(p), wide)) + tail
  {
    if Taken(p) == 0 {
      NoneJoined(p);
      CutMeaning(WireSegment(p[0], wide));
      ChunkMeant(WireSegment(p[0], wide), 0, tail);
    } else {
      PackedIs(p, wide);
      MeantOne(PackedHead(p, wide), tail);
    }
    hide Meant, Items, ChunkHeads, Cut, Meaning, WireSegment, JoinedFirst, PackedHead;
  }

  // ----- segments that survive ------------------------------------------------------

  lemma {:induction false} RunShort(s: Segment, next: Path, i: nat)
    requires i < PackRun(s, next)
    ensures |next[i].asns| <= AS_SEGMENT_MAX
  {
    if i > 0 {
      RunShort(s, next[1..], i - 1);
    }
  }

  lemma ShortWireable(s: Segment, wide: bool)
    requires |s.asns| <= AS_SEGMENT_MAX
    ensures Wireable(WireSegment(s, wide))
  {
  }

  lemma WireableAt(p: Path, wide: bool)
    ensures AllWireable(WirePath(p, wide)) <==> forall i :: 0 <= i < |p| ==> Wireable(WireSegment(p[i], wide))
  {
    hide Wireable, WireAsns;
    var w := WirePath(p, wide);
    assert forall i :: 0 <= i < |p| ==> w[i] == WireSegment(p[i], wide);
  }

  /** What is packed always survives. */
  lemma WireableRest(p: Path, wide: bool)
    requires p != []
    ensures AllWireable(WirePath(p, wide)) <==> Wireable(WireSegment(p[0], wide)) && AllWireable(WirePath(Rest(p), wide))
  {
    var k, t := Taken(p), Rest(p);
    hide Wireable, WireSegment, WirePath, AllWireable, PackRun;
    WireableAt(p, wide);
    WireableAt(t, wide);
    assert forall i :: 0 <= i < |t| ==> t[i] == p[1 + k + i];
    assert forall i :: 1 + k <= i < |p| ==> p[i] == t[i - 1 - k];
    forall i | 1 <= i <= k ensures Wireable(WireSegment(p[i], wide)) {
      RunShort(p[0], p[1..], i - 1);
      ShortWireable(p[i], wide);
    }
  }

  /** Where every segment survives being cut, the heads mean what the path means on the wire. */
  lemma {:induction false} HeadsMeant(p: Path, tail: seq<Item>, wide: bool)
    requires AllWireable(WirePath(p, wide))
    ensures Meant(HeadsOf(p, wide), tail) == Meaning(WirePath(p, wide)) + tail
    decreases |p|
  {
    if p == [] {
      assert WirePath(p, wide) == [] && [] + tail == tail;
    } else {
      hide Meant, Meaning, Items, FirstHeads, HeadsOf, WirePath, AllWireable, Rest, Wireable, WireSegment, JoinedFirst;
      var w := WirePath(p, wide);
      WireRest(p, wide);
      WireableRest(p, wide);
      HeadsMeant(Rest(p), tail, wide);
      HeadsOfStep(p, wide);
      var m := Meaning(Rest(w));
      MeantConcat(FirstHeads(p, wide), HeadsOf(Rest(p), wide), tail);
      FirstMeant(p, m + tail, wide);
      FirstMeaning(w);
      AppendAssoc(Items(JoinedFirst(w)), m, tail);
    }
  }

  lemma HeadsConcat(a: seq<Head>, b: seq<Head>, wide: bool)
    ensures HeadsOk(a + b, wide) <==> HeadsOk(a, wide) && HeadsOk(b, wide)
    ensures Exact(a + b) <==> Exact(a) && Exact(b)
  {
    hide HeadOk;
    var c := a + b;
    assert forall i :: 0 <= i < |a| ==> c[i] == a[i];
    assert forall i :: 0 <= i < |b| ==> c[|a| + i] == b[i];
    assert forall i :: |a| <= i < |c| ==> c[i] == b[i - |a|];
  }

  lemma {:induction false} ChunksOk(s: Segment, written: nat, wide: bool)
    requires written < |s.asns| && WireAsns(s.asns, wide) == s.asns
    ensures HeadsOk(ChunkHeads(s, written), wide) && Exact(ChunkHeads(s, written))
    decreases |s.asns| - written
  {
    var m := AS_SEGMENT_MAX;
    if |s.asns| - written > m {
      ChunksOk(s, written + m, wide);
      WireAsnsPrefix(s.asns, m, wide);
      hide WireAsns;
      HeadsConcat([Head(s.kind, m, s.asns[..m])], ChunkHeads(s, written + m), wide);
    } else {
      WireAsnsPrefix(s.asns, written, wide);
    }
  }

  lemma PackedOk(p: Path, wide: bool)
    requires NoEmptySegment(p) && p != [] && Taken(p) > 0
    ensures var h := PackedHead(p, wide); HeadOk(h, wide) && (h.length == |h.asns| <==> Taken(p) == 1)
  {
    var k := Taken(p);
    assert NoEmptySegment(p[1..]);
    CountBeyondLast(p[1..], k);
    WireData(JoinedFirst(p).asns, wide);
    hide PackRun, JoinedAsns;
    assert |PackedHead(p, wide).asns| == |p[0].asns| + |JoinedAsns(p[1..], k)|;
  }

  lemma FirstHeadOk(p: Path, wide: bool)
    requires NoEmptySegment(p) && p != []
    ensures HeadsOk(FirstHeads(p, wide), wide) && (Exact(FirstHeads(p, wide)) <==> Taken(p) <= 1)
  {
    if Taken(p) == 0 {
      WireData(p[0].asns, wide);
      ChunksOk(WireSegment(p[0], wide), 0, wide);
      hide HeadsOk, Exact, ChunkHeads, WireSegment;
    } else {
      PackedOk(p, wide);
      hide PackedHead, HeadOk;
    }
  }

  /** Every length byte is right exactly when no segment takes in more than one other. */
  lemma {:induction false} HeadsExact(p: Path, wide: bool)
    requires NoEmptySegment(p)
    ensures HeadsOk(HeadsOf(p, wide), wide) && (Exact(HeadsOf(p, wide)) <==> PacksOneAtMost(p))
    decreases |p|
  {
    if p != [] {
      hide HeadsOk, Exact, FirstHeads, HeadsOf, PacksOneAtMost, Taken, Rest, NoEmptySegment;
      NoEmptyRest(p);
      HeadsOfStep(p, wide);
      PacksStep(p);
      FirstHeadOk(p, wide);
      HeadsExact(Rest(p), wide);
      HeadsConcat(FirstHeads(p, wide), HeadsOf(Rest(p), wide), wide);
    }
  }

  lemma WireableCons(s: Segment, rest: Path)
    ensures AllWireable([s] + rest) <==> Wireable(s) && AllWireable(rest)
  {
    hide Wireable;
    var p := [s] + rest;
    assert p[0] == s;
    assert forall i :: 0 < i < |p| ==> p[i] == rest[i - 1];
    assert forall i :: 0 <= i < |rest| ==> rest[i] == p[i + 1];
  }

  lemma WireableFirst(p: Path, wide: bool)
    requires p != []
    ensures AllWireable(WirePath(p, wide)) <==>
              Wireable(WireSegment(p[0], wide)) && AllWireable(WirePath(p[1..], wide))
  {
    hide Wireable, WirePath, WireSegment, AllWireable;
    assert p == [p[0]] + p[1..];
    WireCons(p[0], p[1..], wide);
    WireableCons(WireSegment(p[0], wide), WirePath(p[1..], wide));
  }

  lemma JoinedWireable(p: Path, wide: bool)
    requires p != [] && Taken(p) <= 1
    ensures Wireable(WireSegment(JoinedFirst(p), wide)) <==> Wireable(WireSegment(p[0], wide))
  {
    hide Wireable, WireSegment, PackRun;
    if Taken(p) == 0 {
      NoneJoined(p);
    } else {
      assert JoinedAsns(p[1..], 1) == p[1].asns + [];
      ShortWireable(p[0], wide);
      ShortWireable(JoinedFirst(p), wide);
    }
  }

  /** Only segments that are not packed can fail to survive being cut. */
  lemma {:induction false} PackedWireable(p: Path, wide: bool)
    requires PacksOneAtMost(p)
    ensures AllWireable(WirePath(Packed(p), wide)) <==> AllWireable(WirePath(p, wide))
    decreases |p|
  {
    if p != [] {
      hide Packed, PacksOneAtMost, Taken, Rest, WirePath, WireSegment, AllWireable, Wireable, JoinedFirst;
      PacksStep(p);
      PackedStep(p);
      PackedWireable(Rest(p), wide);
      WireCons(JoinedFirst(p), Packed(Rest(p)), wide);
      WireableCons(WireSegment(JoinedFirst(p), wide), WirePath(Packed(Rest(p)), wide));
      JoinedWireable(p, wide);
      WireableRest(p, wide);
    }
  }
}
