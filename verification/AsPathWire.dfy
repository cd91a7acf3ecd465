/** The wire form of AS_PATH: the bytes of aspath_put, and assegments_parse (bgpd/bgp_aspath.c).

    `wide` selects 4-byte AS numbers; the 2-byte form writes AS_TRANS for every number that
    does not fit.  A segment longer than 255 is cut into chunks on the wire, and every full
    chunk is taken from the start of the segment. */
module AsPathWire {
  import opened Wrappers
  import opened Bytes
  import opened Seqs
  import opened AsPath

  function Width(wide: bool): nat {
    if wide then 4 else 2
  }

  /** ASSEGMENT_DATA_SIZE: the bytes that n numbers take. */
  function Span(n: nat, wide: bool): nat {
    if wide then 4 * n else 2 * n
  }

  function WireAsn(a: Asn, wide: bool): Asn {
    if wide || a <= BGP_AS_MAX then a else BGP_AS_TRANS
  }

  function WireAsns(s: seq<Asn>, wide: bool): seq<Asn> {
    seq(|s|, i requires 0 <= i < |s| => WireAsn(s[i], wide))
  }

  /** The path a peer can recover: `p` itself, or `p` with AS_TRANS substituted. */
  function WirePath(p: Path, wide: bool): Path {
    seq(|p|, i requires 0 <= i < |p| => p[i].(asns := WireAsns(p[i].asns, wide)))
  }

  // ----- writing --------------------------------------------------------------------

  function PutAsn(a: Asn, wide: bool): (b: seq<Byte>)
    ensures |b| == Width(wide)
  {
    var v: int := WireAsn(a, wide);
    var v1 := v / 256;
    var v2 := v1 / 256;
    if wide then [v2 / 256, v2 % 256, v1 % 256, v % 256] else [v1, v % 256]
  }

  function PutData(s: seq<Asn>, wide: bool): (b: seq<Byte>)
    ensures |b| == Span(|s|, wide)
  {
    if s == [] then [] else PutAsn(s[0], wide) + PutData(s[1..], wide)
  }

  function TypeCode(k: SegType): Byte {
    match k
    case AsSet => 1
    case AsSequence => 2
    case AsConfedSequence => 3
    case AsConfedSet => 4
  }

  function PutHeader(k: SegType, length: nat): seq<Byte>
    requires length < 256
  {
    [TypeCode(k), length]
  }

  /** All chunks of one segment, from the point where `written` numbers have been sent. */
  function PutChunks(s: Segment, written: nat, wide: bool): (b: seq<Byte>)
    requires written <= |s.asns|
    ensures |b| >= 2 + Span(|s.asns| - written, wide)
    decreases |s.asns| - written
  {
    if |s.asns| - written > AS_SEGMENT_MAX then
      PutHeader(s.kind, AS_SEGMENT_MAX) + PutData(s.asns[..AS_SEGMENT_MAX], wide)
      + PutChunks(s, written + AS_SEGMENT_MAX, wide)
    else
      PutHeader(s.kind, |s.asns| - written) + PutData(s.asns[written..], wide)
  }

  function PutPath(p: Path, wide: bool): seq<Byte> {
    if p == [] then [] else PutChunks(p[0], 0, wide) + PutPath(p[1..], wide)
  }

  /** The size the writer reports for a segment: each full chunk is counted with the running
      total, not with its own length. */
  function ReportedSize(length: nat, written: nat, wide: bool): nat
    requires written <= length
    decreases length - written
  {
    if length - written > AS_SEGMENT_MAX then
      2 + Span(written + AS_SEGMENT_MAX, wide) + ReportedSize(length, written + AS_SEGMENT_MAX, wide)
    else
      2 + Span(length - written, wide)
  }

  function ReportedSizes(p: Path, wide: bool): nat {
    if p == [] then 0 else ReportedSize(|p[0].asns|, 0, wide) + ReportedSizes(p[1..], wide)
  }

  predicate NoAdjacentSequences(p: Path) {
    forall i :: 0 < i < |p| ==> !(p[i - 1].kind.AsSequence? && p[i].kind.AsSequence?)
  }

  // ----- packing --------------------------------------------------------------------

  /** ASSEGMENTS_PACKABLE */
  predicate Packable(s: Segment, t: Segment) {
    s.kind.AsSequence? && t.kind.AsSequence? && |s.asns| + |t.asns| <= AS_SEGMENT_MAX
  }

  /** How many of the segments behind `s` are packed into it; each is tested against `s` alone. */
  function PackRun(s: Segment, next: Path): (k: nat)
    ensures k <= |next|
    ensures k > 0 ==> Packable(s, next[k - 1])
  {
    if next != [] && Packable(s, next[0]) then 1 + PackRun(s, next[1..]) else 0
  }

  function PackedData(next: Path, k: nat, wide: bool): seq<Byte>
    requires k <= |next|
  {
    if k == 0 then [] else PutData(next[0].asns, wide) + PackedData(next[1..], k - 1, wide)
  }

  function PackedCount(next: Path, k: nat): nat
    requires k <= |next|
  {
    if k == 0 then 0 else |next[0].asns| + PackedCount(next[1..], k - 1)
  }

  /** A segment and what is packed into it.  The length in the header is that of the segment and
      of the last one packed. */
  function PutHead(s: Segment, next: Path, wide: bool): (b: seq<Byte>)
    ensures |b| >= 2 + Span(|s.asns|, wide)
  {
    var k := PackRun(s, next);
    if k == 0 then PutChunks(s, 0, wide)
    else PutHeader(s.kind, |s.asns| + |next[k - 1].asns|) + PutData(s.asns, wide) + PackedData(next, k, wide)
  }

  function ReportedHead(s: Segment, next: Path, wide: bool): nat {
    var k := PackRun(s, next);
    if k == 0 then ReportedSize(|s.asns|, 0, wide) else 2 + Span(|s.asns| + PackedCount(next, k), wide)
  }

  /** A segment that nothing is packed into. */
  lemma HeadAlone(s: Segment, next: Path, wide: bool)
    requires next == [] || !Packable(s, next[0])
    ensures PackRun(s, next) == 0 && PackedData(next, 0, wide) == []
    ensures PutHead(s, next, wide) == PutChunks(s, 0, wide) && ReportedHead(s, next, wide) == ReportedSize(|s.asns|, 0, wide)
  {
  }

  /** How many segments are packed into the first of a path. */
  function Taken(p: Path): (k: nat)
    requires p != []
    ensures 1 + k <= |p| && (k > 0 ==> Packable(p[0], p[k]))
  {
    PackRun(p[0], p[1..])
  }

  /** What comes behind the first segment and those packed into it. */
  function Rest(p: Path): (rest: Path)
    requires p != []
    ensures |rest| < |p|
  {
    p[1 + Taken(p)..]
  }

  function PutFirst(p: Path, wide: bool): (b: seq<Byte>)
    requires p != []
    ensures |b| >= 2 + Span(|p[0].asns|, wide)
  {
    PutHead(p[0], p[1..], wide)
  }

  function ReportedFirst(p: Path, wide: bool): nat
    requires p != []
  {
    ReportedHead(p[0], p[1..], wide)
  }

  function PutAll(p: Path, wide: bool): seq<Byte>
    decreases |p|
  {
    if p == [] then [] else PutFirst(p, wide) + PutAll(Rest(p), wide)
  }

  function ReportedAll(p: Path, wide: bool): nat
    decreases |p|
  {
    if p == [] then 0 else ReportedFirst(p, wide) + ReportedAll(Rest(p), wide)
  }

  /** Where no two AS_SEQUENCE segments touch, as in every normal path, nothing is packed. */
  lemma {:induction false} NothingPacked(p: Path, wide: bool)
    requires NoAdjacentSequences(p)
    ensures PutAll(p, wide) == PutPath(p, wide) && ReportedAll(p, wide) == ReportedSizes(p, wide)
  {
    hide PutChunks, ReportedSize;
    if p != [] {
      var rest := p[1..];
      assert |p| > 1 ==> !(p[1 - 1].kind.AsSequence? && p[1].kind.AsSequence?);
      forall i | 0 < i < |rest| ensures !(rest[i - 1].kind.AsSequence? && rest[i].kind.AsSequence?) {
        assert !(p[i + 1 - 1].kind.AsSequence? && p[i + 1].kind.AsSequence?);
      }
      NothingPacked(rest, wide);
    }
  }

  lemma NormalNotAdjacent(p: Path)
    requires IsNormal(p)
    ensures NoAdjacentSequences(p)
  {
  }

  lemma {:induction false} PutDataConcat(a: seq<Asn>, b: seq<Asn>, wide: bool)
    ensures PutData(a + b, wide) == PutData(a, wide) + PutData(b, wide)
  {
    if a == [] {
      assert a + b == b;
    } else {
      PutDataConcat(a[1..], b, wide);
      assert (a + b)[1..] == a[1..] + b;
      hide PutAsn;
      AppendAssoc(PutAsn(a[0], wide), PutData(a[1..], wide), PutData(b, wide));
    }
  }

  lemma PutAllStep(p: Path, wide: bool)
    requires p != []
    ensures PutAll(p, wide) == PutFirst(p, wide) + PutAll(Rest(p), wide)
    ensures ReportedAll(p, wide) == ReportedFirst(p, wide) + ReportedAll(Rest(p), wide)
    ensures |PutAll(p, wide)| >= 2 + Span(|p[0].asns|, wide)
  {
    hide PutFirst, ReportedFirst, Rest;
  }

  // ----- reading --------------------------------------------------------------------

  function GetAsn(b: seq<Byte>, wide: bool): Asn
    requires |b| >= Width(wide)
  {
    var b0: int, b1: int := b[0], b[1];
    if wide then
      var b2: int, b3: int := b[2], b[3];
      b0 * 0x100_0000 + b1 * 0x1_0000 + b2 * 256 + b3
    else
      b0 * 256 + b1
  }

  function GetData(b: seq<Byte>, n: nat, wide: bool): (s: seq<Asn>)
    requires |b| >= Span(n, wide)
    ensures |s| == n
  {
    if n == 0 then [] else [GetAsn(b, wide)] + GetData(b[Width(wide)..], n - 1, wide)
  }

  function CodeType(c: Byte): Option<SegType> {
    if c == 1 then Some(AsSet)
    else if c == 2 then Some(AsSequence)
    else if c == 3 then Some(AsConfedSequence)
    else if c == 4 then Some(AsConfedSet)
    else None
  }

  /** The segments as they stand on the wire, or None for a malformed attribute. */
  function GetSegments(b: seq<Byte>, wide: bool): Option<Path>
    decreases |b|
  {
    if b == [] then Some([])
    else if |b| <= 2 then None
    else
      var size := 2 + Span(b[1], wide);
      if size > |b| || b[1] == 0 || CodeType(b[0]).None? then None
      else
        var rest := GetSegments(b[size..], wide);
        if rest.None? then None
        else Some([Segment(CodeType(b[0]).value, GetData(b[2..], b[1], wide))] + rest.value)
  }

  /** `assegments_parse` on the readable part of the stream, for an attribute of `length` bytes. */
  function ParsePath(readable: seq<Byte>, length: nat, wide: bool): Option<Path> {
    if length == 0 then Some([])
    else if |readable| < length || |readable| < 2 || length % 2 != 0 then None
    else
      var raw := GetSegments(readable[..length], wide);
      if raw.None? then None else Some(Normalise(raw.value))
  }

  lemma GetDataStep(b: seq<Byte>, n: nat, wide: bool)
    requires n > 0 && |b| >= Span(n, wide)
    ensures |b| >= Width(wide) && |b| - Width(wide) >= Span(n - 1, wide)
    ensures GetData(b, n, wide) == [GetAsn(b, wide)] + GetData(b[Width(wide)..], n - 1, wide)
  {
    hide GetAsn;
  }

  lemma NoDataLeft(b: seq<Byte>, wide: bool)
    ensures GetData(b, 0, wide) == []
  {
  }

  method ReadData(b: seq<Byte>, n: nat, wide: bool) returns (s: seq<Asn>)
    requires |b| >= Span(n, wide)
    ensures s == GetData(b, n, wide)
  {
    hide GetData, GetAsn;
    s := [];
    var rest := b;
    assert [] + GetData(b, n, wide) == GetData(b, n, wide);
    for i := 0 to n
      invariant |rest| >= Span(n - i, wide)
      invariant s + GetData(rest, n - i, wide) == GetData(b, n, wide)
    {
      GetDataStep(rest, n - i, wide);
      var a := GetAsn(rest, wide);
      AppendAssoc(s, [a], GetData(rest[Width(wide)..], n - i - 1, wide));
      s := s + [a];
      rest := rest[Width(wide)..];
    }
    NoDataLeft(rest, wide);
    assert s + [] == s;
  }

  ghost function Prepend(head: Path, r: Option<Path>): Option<Path> {
    if r.None? then None else Some(head + r.value)
  }

  lemma PrependConcat(a: Path, b: Path, r: Option<Path>)
    ensures Prepend(a, Prepend(b, r)) == Prepend(a + b, r)
  {
    if r.Some? {
      AppendAssoc(a, b, r.value);
    }
  }

  lemma PrependUnit(head: Path, r: Option<Path>)
    ensures Prepend([], r) == r
    ensures Prepend(head, Some([])) == Some(head)
  {
    if r.Some? {
      assert [] + r.value == r.value;
    }
    assert head + [] == head;
  }

  /** `assegments_parse` as coded: header first, checks, then the numbers. */
  method ReadPath(readable: seq<Byte>, length: nat, wide: bool) returns (r: Option<Path>)
    ensures r == ParsePath(readable, length, wide)
  {
    hide GetData, GetAsn, Normalise;
    if length == 0 {
      return Some([]);
    }
    if |readable| < length || |readable| < 2 || length % 2 != 0 {
      return None;
    }
    var head: Path := [];
    var rest := readable[..length];
    ghost var all := GetSegments(rest, wide);
    PrependUnit(head, all);
    while rest != []
      invariant all == Prepend(head, GetSegments(rest, wide))
      decreases |rest|
    {
      if |rest| <= 2 {
        return None;
      }
      var kind, n := CodeType(rest[0]), rest[1];
      var size := 2 + Span(n, wide);
      if size > |rest| || n == 0 || kind.None? {
        return None;
      }
      var s := ReadData(rest[2..], n, wide);
      PrependConcat(head, [Segment(kind.value, s)], GetSegments(rest[size..], wide));
      head := head + [Segment(kind.value, s)];
      rest := rest[size..];
    }
    PrependUnit(head, all);
    var normal := NormaliseSegments(head);
    r := Some(normal);
  }

  // ----- round trip -----------------------------------------------------------------

  lemma AsnRoundTrip(a: Asn, rest: seq<Byte>, wide: bool)
    ensures GetAsn(PutAsn(a, wide) + rest, wide) == WireAsn(a, wide)
  {
    var v: int := WireAsn(a, wide);
    var v1 := v / 256;
    var v2 := v1 / 256;
    var b := PutAsn(a, wide) + rest;
    assert v == v1 * 256 + v % 256 && v1 == v2 * 256 + v1 % 256;
    if wide {
      assert b[0] == v2 / 256 && b[1] == v2 % 256 && b[2] == v1 % 256 && b[3] == v % 256;
      assert v2 == v2 / 256 * 256 + v2 % 256;
    } else {
      assert b[0] == v1 && b[1] == v % 256;
    }
  }

  lemma {:induction false} DataRoundTrip(s: seq<Asn>, rest: seq<Byte>, wide: bool)
    ensures GetData(PutData(s, wide) + rest, |s|, wide) == WireAsns(s, wide)
  {
    if s != [] {
      var tail := PutData(s[1..], wide) + rest;
      DataRoundTrip(s[1..], rest, wide);
      AsnRoundTrip(s[0], tail, wide);
      assert PutData(s, wide) + rest == PutAsn(s[0], wide) + tail;
      assert (PutAsn(s[0], wide) + tail)[Width(wide)..] == tail;
      assert WireAsns(s, wide) == [WireAsn(s[0], wide)] + WireAsns(s[1..], wide);
    }
  }

  lemma GetSegmentsStep(b: seq<Byte>, k: SegType, n: Byte, wide: bool)
    requires |b| >= 2 + Span(n, wide) && n > 0 && CodeType(b[0]) == Some(k) && b[1] == n
    ensures GetSegments(b, wide)
         == Prepend([Segment(k, GetData(b[2..], n, wide))], GetSegments(b[2 + Span(n, wide)..], wide))
  {
    hide GetData, CodeType;
    assert |b| > 2 && b != [];
  }

  lemma ChunkRoundTrip(k: SegType, s: seq<Asn>, rest: seq<Byte>, wide: bool)
    requires 0 < |s| <= AS_SEGMENT_MAX
    ensures GetSegments(PutHeader(k, |s|) + PutData(s, wide) + rest, wide)
         == Prepend([Segment(k, WireAsns(s, wide))], GetSegments(rest, wide))
  {
    hide PutData, GetData, GetSegments, WireAsns, Prepend;
    var body := PutData(s, wide) + rest;
    var b := PutHeader(k, |s|) + PutData(s, wide) + rest;
    assert b[2..] == body;
    assert b[2 + Span(|s|, wide)..] == rest;
    DataRoundTrip(s, rest, wide);
    GetSegmentsStep(b, k, |s|, wide);
  }

  /** The chunks of one segment, as segments. */
  function Cut(s: Segment, written: nat): Path
    requires written <= |s.asns|
    decreases |s.asns| - written
  {
    if |s.asns| - written > AS_SEGMENT_MAX then
      [s.(asns := s.asns[..AS_SEGMENT_MAX])] + Cut(s, written + AS_SEGMENT_MAX)
    else
      [s.(asns := s.asns[written..])]
  }

  function CutAll(p: Path): Path {
    if p == [] then [] else Cut(p[0], 0) + CutAll(p[1..])
  }

  function WireSegment(s: Segment, wide: bool): Segment {
    s.(asns := WireAsns(s.asns, wide))
  }

  lemma {:induction false} CutRoundTrip(s: Segment, written: nat, rest: seq<Byte>, wide: bool)
    requires written < |s.asns|
    ensures GetSegments(PutChunks(s, written, wide) + rest, wide)
         == Prepend(Cut(WireSegment(s, wide), written), GetSegments(rest, wide))
    decreases |s.asns| - written
  {
    hide GetSegments, PutData, Prepend;
    var w := WireSegment(s, wide);
    if |s.asns| - written > AS_SEGMENT_MAX {
      var head := s.asns[..AS_SEGMENT_MAX];
      var tail := PutChunks(s, written + AS_SEGMENT_MAX, wide) + rest;
      CutRoundTrip(s, written + AS_SEGMENT_MAX, rest, wide);
      ChunkRoundTrip(s.kind, head, tail, wide);
      assert WireAsns(head, wide) == w.asns[..AS_SEGMENT_MAX];
      hide WireAsns;
      AppendAssoc(PutHeader(s.kind, AS_SEGMENT_MAX) + PutData(head, wide), PutChunks(s, written + AS_SEGMENT_MAX, wide), rest);
      PrependConcat([w.(asns := w.asns[..AS_SEGMENT_MAX])], Cut(w, written + AS_SEGMENT_MAX), GetSegments(rest, wide));
    } else {
      ChunkRoundTrip(s.kind, s.asns[written..], rest, wide);
      assert WireAsns(s.asns[written..], wide) == w.asns[written..];
    }
  }

  /** What is read back is the wire path, cut into chunks. */
  lemma {:induction false} PathRoundTripRaw(p: Path, wide: bool)
    requires NoEmptySegment(p)
    ensures GetSegments(PutPath(p, wide), wide) == Some(CutAll(WirePath(p, wide)))
  {
    hide PutChunks, Cut;
    if p != [] {
      PathRoundTripRaw(p[1..], wide);
      CutRoundTrip(p[0], 0, PutPath(p[1..], wide), wide);
      assert WirePath(p, wide)[1..] == WirePath(p[1..], wide);
    }
  }

  lemma {:induction false} PutPathEven(p: Path, wide: bool)
    ensures |PutPath(p, wide)| % 2 == 0
    ensures p != [] ==> |PutPath(p, wide)| >= 2
  {
    hide PutChunks;
    if p != [] {
      PutPathEven(p[1..], wide);
      PutChunksEven(p[0], 0, wide);
    }
  }

  lemma {:induction false} PutChunksEven(s: Segment, written: nat, wide: bool)
    requires written <= |s.asns|
    ensures |PutChunks(s, written, wide)| % 2 == 0
    decreases |s.asns| - written
  {
    hide PutData;
    if |s.asns| - written > AS_SEGMENT_MAX {
      PutChunksEven(s, written + AS_SEGMENT_MAX, wide);
    }
  }

  // ----- which segments survive being cut -------------------------------------------

  /** Every full chunk that the writer sends after the first equals the first. */
  predicate ChunksRepeat(s: seq<Asn>, written: nat)
    requires written <= |s|
    decreases |s| - written
  {
    |s| - written > AS_SEGMENT_MAX ==>
      && s[written..written + AS_SEGMENT_MAX] == s[..AS_SEGMENT_MAX]
      && ChunksRepeat(s, written + AS_SEGMENT_MAX)
  }

  predicate Wireable(s: Segment) {
    || |s.asns| <= AS_SEGMENT_MAX
    || (s.kind.AsSequence? && ChunksRepeat(s.asns, 0))
  }

  predicate AllWireable(p: Path) {
    forall i :: 0 <= i < |p| ==> Wireable(p[i])
  }

  /** In particular up to 510 numbers of an AS_SEQUENCE survive. */
  lemma TwoChunksWireable(s: Segment)
    requires s.kind.AsSequence? && |s.asns| <= 2 * AS_SEGMENT_MAX
    ensures Wireable(s)
  {
    if |s.asns| > AS_SEGMENT_MAX {
      assert ChunksRepeat(s.asns, AS_SEGMENT_MAX);
    }
  }

  /** An AS_SEQUENCE without repetition survives exactly up to 510 numbers. */
  lemma DistinctWireable(s: Segment)
    requires s.kind.AsSequence? && forall i, j :: 0 <= i < j < |s.asns| ==> s.asns[i] != s.asns[j]
    ensures Wireable(s) <==> |s.asns| <= 2 * AS_SEGMENT_MAX
  {
    var a, m := s.asns, AS_SEGMENT_MAX;
    if |a| <= 2 * m {
      TwoChunksWireable(s);
    } else {
      assert a[m..2 * m][0] == a[m] && a[..m][0] == a[0];
      assert !ChunksRepeat(a, m);
    }
  }

  /** One chunk of an AS_SEQUENCE, and the place it has in the segment. */
  lemma CutStep(s: Segment, written: nat)
    requires s.kind.AsSequence? && written + AS_SEGMENT_MAX < |s.asns|
    ensures var n, head := written + AS_SEGMENT_MAX, s.(asns := s.asns[..AS_SEGMENT_MAX]);
            && |Items(s)| == |s.asns| && |Items(head)| == AS_SEGMENT_MAX
            && Meaning(Cut(s, written)) == Items(head) + Meaning(Cut(s, n))
            && (Items(head) == Items(s)[written..n] <==> s.asns[written..n] == s.asns[..AS_SEGMENT_MAX])
  {
    var n, head := written + AS_SEGMENT_MAX, s.(asns := s.asns[..AS_SEGMENT_MAX]);
    HopsSlice(s, 0, AS_SEGMENT_MAX);
    HopsSlice(s, written, n);
    HopsEqual(s.asns[..AS_SEGMENT_MAX], s.asns[written..n]);
    assert |Items(s)| == |s.asns|;
    hide Items, Meaning;
    MeaningCons(head, Cut(s, n));
  }

  lemma {:induction false} CutSequenceMeaning(s: Segment, written: nat)
    requires s.kind.AsSequence? && written <= |s.asns|
    ensures |Items(s)| == |s.asns| && |Meaning(Cut(s, written))| == |s.asns| - written
    ensures Meaning(Cut(s, written)) == Items(s)[written..] <==> ChunksRepeat(s.asns, written)
    decreases |s.asns| - written
  {
    var n := written + AS_SEGMENT_MAX;
    if n < |s.asns| {
      CutSequenceMeaning(s, n);
      CutStep(s, written);
      hide Items, Meaning, Cut;
      assert Items(s)[written..] == Items(s)[written..n] + Items(s)[n..];
      EqualParts(Items(s.(asns := s.asns[..AS_SEGMENT_MAX])), Meaning(Cut(s, n)), Items(s)[written..n], Items(s)[n..]);
    } else {
      var last := s.(asns := s.asns[written..]);
      MeaningOne(last);
      assert Items(last) == Items(s)[written..];
    }
  }

  lemma HopsSlice(s: Segment, i: nat, j: nat)
    requires s.kind.AsSequence? && i <= j <= |s.asns|
    ensures |Items(s.(asns := s.asns[i..j]))| == j - i
    ensures Items(s.(asns := s.asns[i..j])) == Items(s)[i..j]
  {
  }

  lemma HopsEqual(a: seq<Asn>, b: seq<Asn>)
    ensures Items(Segment(AsSequence, a)) == Items(Segment(AsSequence, b)) <==> a == b
  {
    var x, y := Items(Segment(AsSequence, a)), Items(Segment(AsSequence, b));
    if x == y {
      assert |a| == |x| && |b| == |y|;
      forall i | 0 <= i < |a| ensures a[i] == b[i] {
        assert x[i] == Hop(a[i]) && y[i] == Hop(b[i]);
      }
    }
  }

  lemma {:induction false} CutOtherMeaning(s: Segment, written: nat)
    requires !s.kind.AsSequence? && written <= |s.asns|
    ensures |Meaning(Cut(s, written))| >= 1
    ensures |s.asns| - written > AS_SEGMENT_MAX ==> |Meaning(Cut(s, written))| >= 2
    decreases |s.asns| - written
  {
    if |s.asns| - written > AS_SEGMENT_MAX {
      CutOtherMeaning(s, written + AS_SEGMENT_MAX);
    }
  }

  /** A segment keeps its meaning through the cut exactly when it is wireable. */
  lemma CutMeaning(s: Segment)
    ensures |Meaning(Cut(s, 0))| >= |Items(s)|
    ensures Meaning(Cut(s, 0)) == Items(s) <==> Wireable(s)
  {
    if s.kind.AsSequence? {
      CutSequenceMeaning(s, 0);
      assert Items(s)[0..] == Items(s);
    } else {
      CutOtherMeaning(s, 0);
      assert s.asns[0..] == s.asns;
      MeaningOne(s);
    }
  }

  lemma {:induction false} CutAllMeaning(p: Path)
    ensures |Meaning(CutAll(p))| >= |Meaning(p)|
    ensures Meaning(CutAll(p)) == Meaning(p) <==> AllWireable(p)
  {
    if p != [] {
      var a, b := Meaning(Cut(p[0], 0)), Meaning(CutAll(p[1..]));
      CutAllMeaning(p[1..]);
      CutMeaning(p[0]);
      MeaningConcat(Cut(p[0], 0), CutAll(p[1..]));
      assert AllWireable(p) <==> Wireable(p[0]) && AllWireable(p[1..]);
      if a + b == Items(p[0]) + Meaning(p[1..]) {
        assert |a| == |Items(p[0])|;
        assert (a + b)[..|a|] == a && (a + b)[|a|..] == b;
      }
    }
  }

  lemma {:induction false} CutNoEmpty(s: Segment, written: nat)
    requires written < |s.asns|
    ensures NoEmptySegment(Cut(s, written))
    decreases |s.asns| - written
  {
    if |s.asns| - written > AS_SEGMENT_MAX {
      CutNoEmpty(s, written + AS_SEGMENT_MAX);
    }
  }

  lemma {:induction false} CutAllNoEmpty(p: Path)
    requires NoEmptySegment(p)
    ensures NoEmptySegment(CutAll(p))
  {
    if p != [] {
      CutNoEmpty(p[0], 0);
      CutAllNoEmpty(p[1..]);
    }
  }

  /** What a peer parses when the segments were written one by one. */
  lemma PlainRoundTrip(p: Path, wide: bool)
    requires NoEmptySegment(p)
    ensures var b := PutPath(p, wide);
            ParsePath(b, |b|, wide) == Some(Normalise(WirePath(p, wide))) <==> AllWireable(WirePath(p, wide))
  {
    var b := PutPath(p, wide);
    var w := WirePath(p, wide);
    PutPathEven(p, wide);
    PathRoundTripRaw(p, wide);
    assert b[..|b|] == b;
    assert p == [] ==> b == [] && w == [];
    assert NoEmptySegment(w);
    CutAllNoEmpty(w);
    CutAllMeaning(w);
    NormaliseCanonical(CutAll(w), w);
    assert p != [] ==> ParsePath(b, |b|, wide) == Some(Normalise(CutAll(w)));
  }

  /** Main result: what a peer parses is the normal form of the wire path exactly when every
      segment survives being cut. */
  lemma WireRoundTrip(p: Path, wide: bool)
    requires IsNormal(p)
    ensures var b := PutAll(p, wide);
            ParsePath(b, |b|, wide) == Some(Normalise(WirePath(p, wide))) <==> AllWireable(WirePath(p, wide))
  {
    NormalNotAdjacent(p);
    NothingPacked(p, wide);
    PlainRoundTrip(p, wide);
    hide PutAll, PutPath, ParsePath;
  }

  lemma WirePathWide(p: Path)
    ensures WirePath(p, true) == p
  {
    forall i | 0 <= i < |p| ensures WirePath(p, true)[i] == p[i] {
      assert WireAsns(p[i].asns, true) == p[i].asns;
    }
  }

  /** In the 4-byte form the very path comes back. */
  lemma WideRoundTrip(p: Path)
    requires IsNormal(p)
    ensures var b := PutAll(p, true);
            ParsePath(b, |b|, true) == Some(p) <==> AllWireable(p)
  {
    hide PutAll;
    WireRoundTrip(p, true);
    WirePathWide(p);
    NormaliseFixedPoint(p);
  }

  function Counting(n: nat): seq<Asn>
    requires n < 0x1_0000_0000
  {
    seq(n, i => if 0 <= i < n then i + 1 else 0)
  }

  /** The smallest failure: 511 different numbers in one AS_SEQUENCE are sent in three chunks, the
      second a copy of the first; the path does not come back, and the bytes of 255 numbers too
      many are counted. */
  lemma LongSequenceLost()
    ensures var s := Segment(AsSequence, Counting(511));
            var b := PutAll([s], true);
            && IsNormal([s]) && !Wireable(s)
            && ParsePath(b, |b|, true) != Some([s])
            && ReportedAll([s], true) == |b| + Span(255, true)
  {
    var s := Segment(AsSequence, Counting(511));
    assert |s.asns| == 511;
    DistinctWireable(s);
    WideRoundTrip([s]);
    assert [s][0] == s;
    NothingPacked([s], true);
    assert [s][1..] == [];
    LongSize(s);
  }

  lemma LongSize(s: Segment)
    requires |s.asns| == 511
    ensures ReportedSizes([s], true) == |PutPath([s], true)| + Span(255, true)
  {
    hide PutData;
    assert [s][1..] == [];
    assert |PutChunks(s, 510, true)| == 2 + 4 && ReportedSize(511, 510, true) == 2 + 4;
    assert |PutChunks(s, 255, true)| == 2 + 4 * 255 + 6 && ReportedSize(511, 255, true) == 2 + 4 * 510 + 6;
    assert |PutChunks(s, 0, true)| == 2 * (2 + 4 * 255) + 6 && ReportedSize(511, 0, true) == 2 + 4 * 255 + 2 + 4 * 510 + 6;
  }

  // ----- the reported size ----------------------------------------------------------

  lemma {:induction false} ReportedSizeExcess(s: Segment, written: nat, wide: bool)
    requires written <= |s.asns|
    ensures ReportedSize(|s.asns|, written, wide) >= |PutChunks(s, written, wide)|
    ensures written == 0 && |s.asns| <= 2 * AS_SEGMENT_MAX ==>
            ReportedSize(|s.asns|, written, wide) == |PutChunks(s, written, wide)|
    ensures |s.asns| - written > (if written == 0 then 2 else 1) * AS_SEGMENT_MAX ==>
            ReportedSize(|s.asns|, written, wide) > |PutChunks(s, written, wide)|
    decreases |s.asns| - written
  {
    if |s.asns| - written > AS_SEGMENT_MAX {
      ReportedSizeExcess(s, written + AS_SEGMENT_MAX, wide);
    }
  }

  predicate TwoChunksAtMost(p: Path) {
    forall i :: 0 <= i < |p| ==> |p[i].asns| <= 2 * AS_SEGMENT_MAX
  }

  lemma TwoChunksSplit(p: Path, k: nat)
    requires k <= |p|
    ensures TwoChunksAtMost(p) <==> TwoChunksAtMost(p[..k]) && TwoChunksAtMost(p[k..])
  {
    assert forall i :: 0 <= i < |p| ==> p[i] == if i < k then p[..k][i] else p[k..][i - k];
    assert forall i :: 0 <= i < |p| - k ==> p[k..][i] == p[k + i];
  }

  lemma {:induction false} PackedSize(next: Path, k: nat, wide: bool)
    requires k <= |next|
    ensures |PackedData(next, k, wide)| == Span(PackedCount(next, k), wide)
  {
    if k > 0 {
      PackedSize(next[1..], k - 1, wide);
    }
  }

  lemma {:induction false} PackedShort(s: Segment, next: Path)
    ensures TwoChunksAtMost(next[..PackRun(s, next)])
  {
    if next != [] && Packable(s, next[0]) {
      var k := PackRun(s, next[1..]);
      PackedShort(s, next[1..]);
      assert next[..1 + k] == [next[0]] + next[1..][..k];
    }
  }

  /** What is packed is counted right. */
  lemma ReportedHeadExcess(s: Segment, next: Path, wide: bool)
    ensures ReportedHead(s, next, wide) >= |PutHead(s, next, wide)|
    ensures ReportedHead(s, next, wide) == |PutHead(s, next, wide)| <==> |s.asns| <= 2 * AS_SEGMENT_MAX
  {
    var k := PackRun(s, next);
    hide PutData;
    ReportedSizeExcess(s, 0, wide);
    PackedSize(next, k, wide);
    hide PackRun, PutChunks, ReportedSize, PackedData, PackedCount;
    assert k > 0 ==> Packable(s, next[k - 1]);
  }

  lemma FirstExcess(p: Path, wide: bool)
    requires p != []
    ensures ReportedFirst(p, wide) >= |PutFirst(p, wide)|
    ensures ReportedFirst(p, wide) == |PutFirst(p, wide)| <==> |p[0].asns| <= 2 * AS_SEGMENT_MAX
  {
    hide PutHead, ReportedHead;
    ReportedHeadExcess(p[0], p[1..], wide);
  }

  /** What is packed is never long. */
  lemma TwoChunksFirst(p: Path)
    requires p != []
    ensures TwoChunksAtMost(p) <==> |p[0].asns| <= 2 * AS_SEGMENT_MAX && TwoChunksAtMost(Rest(p))
  {
    var k := Taken(p);
    PackedShort(p[0], p[1..]);
    TwoChunksSplit(p[1..], k);
    TwoChunksSplit(p, 1);
    hide PackRun;
    assert p[1..][k..] == p[1 + k..];
    assert p[..1][0] == p[0];
  }

  /** The returned byte count is the number of bytes written exactly when no segment needs more
      than two chunks. */
  lemma {:induction false} ReportedSizeExact(p: Path, wide: bool)
    ensures ReportedAll(p, wide) >= |PutAll(p, wide)|
    ensures ReportedAll(p, wide) == |PutAll(p, wide)| <==> TwoChunksAtMost(p)
    decreases |p|
  {
    if p != [] {
      hide PutFirst, ReportedFirst, Rest, TwoChunksAtMost, PutAll, ReportedAll;
      FirstExcess(p, wide);
      ReportedSizeExact(Rest(p), wide);
      TwoChunksFirst(p);
      PutAllStep(p, wide);
    }
  }
}
