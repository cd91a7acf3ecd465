/** What a peer makes of AS_PATH bytes in which a length byte counts too little.

    The numbers that were not counted are taken for the header of a segment, and from there on the
    parser is some bytes ahead of the writer.  As long as the numbers on the wire are those that were
    meant, it reads its way through AS_SEQUENCEs only and never comes to an end with the writer: the
    path it reads is not the one that was meant. */
module AsPathMisread {
  import opened Wrappers
  import opened Bytes
  import opened Seqs
  import opened AsPath
  import opened AsPathWire

  /** A segment as written: its length byte, and the numbers behind it. */
  datatype Head = Head(kind: SegType, length: Byte, asns: seq<Asn>)

  predicate HeadOk(h: Head, wide: bool) {
    && 0 < h.length <= |h.asns| && (h.length < |h.asns| ==> h.kind.AsSequence?)
    && WireAsns(h.asns, wide) == h.asns
  }

  predicate HeadsOk(hs: seq<Head>, wide: bool) {
    forall i :: 0 <= i < |hs| ==> HeadOk(hs[i], wide)
  }

  predicate Exact(hs: seq<Head>) {
    forall i :: 0 <= i < |hs| ==> hs[i].length == |hs[i].asns|
  }

  /** The bytes of some heads, and what follows. */
  function Stream(hs: seq<Head>, after: seq<Byte>, wide: bool): seq<Byte> {
    if hs == [] then after
    else [TypeCode(hs[0].kind), hs[0].length] + (PutData(hs[0].asns, wide) + Stream(hs[1..], after, wide))
  }

  function SegmentOf(h: Head): Segment {
    Segment(h.kind, h.asns)
  }

  /** What was meant. */
  function Meant(hs: seq<Head>, tail: seq<Item>): seq<Item> {
    if hs == [] then tail else Items(SegmentOf(hs[0])) + Meant(hs[1..], tail)
  }

  /** Bytes that do not go on with an AS_SEQUENCE. */
  predicate Apart(after: seq<Byte>) {
    after == [] || after[0] != 2
  }

  /** What the parser makes of some bytes. */
  predicate Reads(b: seq<Byte>, m: seq<Item>, wide: bool) {
    var r := GetSegments(b, wide);
    r.Some? && Meaning(r.value) == m
  }

  function Hops(s: seq<Asn>): seq<Item> {
    Items(Segment(AsSequence, s))
  }

  /** What the parser reads when `n` numbers of an AS_SEQUENCE are still to come. */
  function Resume(b: seq<Byte>, n: nat, wide: bool): Option<seq<Item>> {
    if |b| < Span(n, wide) then None
    else
      var rest := GetSegments(b[Span(n, wide)..], wide);
      if rest.None? then None else Some(Hops(GetData(b, n, wide)) + Meaning(rest.value))
  }

  // ----- being ahead ----------------------------------------------------------------

  function ByteSum(b: seq<Byte>): nat {
    if b == [] then 0 else b[0] + ByteSum(b[1..])
  }

  lemma {:induction false} ByteSumConcat(a: seq<Byte>, b: seq<Byte>)
    ensures ByteSum(a + b) == ByteSum(a) + ByteSum(b)
  {
    if a == [] {
      assert a + b == b;
    } else {
      ByteSumConcat(a[1..], b);
      assert (a + b)[1..] == a[1..] + b;
    }
  }

  /** Every second byte is the type of an AS_SEQUENCE. */
  predicate Twos(e: seq<Byte>) {
    |e| % 2 == 0 && forall i :: 0 <= i < |e| && i % 2 == 0 ==> e[i] == 2
  }

  lemma TwosAppend(e: seq<Byte>, n: Byte)
    requires Twos(e)
    ensures Twos(e + [2, n]) && ByteSum(e + [2, n]) == ByteSum(e) + 2 + n
  {
    ByteSumConcat(e, [2, n]);
    SumOfTwo(n);
    hide ByteSum;
    var f := e + [2, n];
    forall i | 0 <= i < |f| && i % 2 == 0 ensures f[i] == 2 {
      assert i < |e| ==> f[i] == e[i];
    }
  }

  lemma SumOfTwo(n: Byte)
    ensures ByteSum([2, n]) == 2 + n
  {
    assert [2, n][1..] == [n] && [n][1..] == [];
    assert ByteSum([n]) == n;
  }

  lemma TwosDrop(e: seq<Byte>, m: Byte)
    requires Twos(e) && |e| >= 2 && e[1] == m
    ensures e[0] == 2 && Twos(e[2..]) && ByteSum(e) == 2 + m + ByteSum(e[2..])
  {
    assert e == [2, m] + e[2..];
    ByteSumConcat([2, m], e[2..]);
    SumOfTwo(m);
    forall i | 0 <= i < |e[2..]| && i % 2 == 0 ensures e[2..][i] == 2 {
      assert (i + 2) % 2 == 0;
    }
  }

  /** Both read the same number `a`: the parser stays ahead by as many bytes. */
  lemma Shifted(e: seq<Byte>, b: seq<Byte>, a: seq<Byte>, t: seq<Byte>) returns (e': seq<Byte>)
    requires Twos(e) && (|a| == 2 || |a| == 4) && |a| <= |b| && b[..|a|] == a && e + b == a + t
    ensures Twos(e') && |e'| == |e| && ByteSum(e') == ByteSum(e) && e' + b[|a|..] == t
  {
    var w, u := |a|, e + b;
    e' := u[w..w + |e|];
    assert u[w..] == t && u[w + |e|..] == b[w..];
    assert e + a == u[..|e| + w] == a + e';
    ByteSumConcat(e, a);
    ByteSumConcat(a, e');
    forall i | 0 <= i < |e'| && i % 2 == 0 ensures e'[i] == 2 {
      ShiftedByte(e, b, a, t, i);
    }
  }

  lemma ShiftedByte(e: seq<Byte>, b: seq<Byte>, a: seq<Byte>, t: seq<Byte>, i: nat)
    requires Twos(e) && (|a| == 2 || |a| == 4) && |a| <= |b| && b[..|a|] == a && e + b == a + t
    requires i < |e| && i % 2 == 0
    ensures (e + b)[|a| + i] == 2
  {
    var w, u := |a|, e + b;
    assert forall j :: 0 <= j < w ==> u[j] == a[j] && b[j] == a[j];
    assert forall j :: |e| <= j < |e| + w ==> u[j] == b[j - |e|];
    if w + i < |e| {
      assert (w + i) % 2 == 0;
    } else {
      var j := w + i - |e|;
      assert j % 2 == 0 && u[w + i] == a[j];
      if j < |e| {
        assert u[j] == e[j];
      } else {
        assert u[j] == a[j - |e|] && u[j - |e|] == e[j - |e|];
      }
    }
  }

  // ----- steps of the parser --------------------------------------------------------

  lemma HopsCons(s: seq<Asn>)
    requires s != []
    ensures Hops(s) == [Hop(s[0])] + Hops(s[1..])
  {
  }

  lemma ResumeHop(b: seq<Byte>, n: nat, wide: bool)
    requires n > 0 && Resume(b, n, wide).Some?
    ensures |b| >= Width(wide)
    ensures Resume(b[Width(wide)..], n - 1, wide).Some?
    ensures Resume(b, n, wide).value == [Hop(GetAsn(b, wide))] + Resume(b[Width(wide)..], n - 1, wide).value
  {
    var w := Width(wide);
    var c := b[w..];
    assert c[Span(n - 1, wide)..] == b[Span(n, wide)..];
    var s := GetData(b, n, wide);
    assert s[0] == GetAsn(b, wide) && s[1..] == GetData(c, n - 1, wide);
    HopsCons(s);
    hide GetSegments, GetData, Items;
    AppendAssoc([Hop(s[0])], Hops(s[1..]), Meaning(GetSegments(b[Span(n, wide)..], wide).value));
  }

  lemma NoHopsLeft(b: seq<Byte>, wide: bool)
    ensures Resume(b, 0, wide) == (var r := GetSegments(b, wide); if r.None? then None else Some(Meaning(r.value)))
  {
    assert b[0..] == b;
    assert Hops(GetData(b, 0, wide)) == [];
    hide Items, GetSegments;
    var r := GetSegments(b, wide);
    assert r.Some? ==> [] + Meaning(r.value) == Meaning(r.value);
  }

  lemma ParsedHead(b: seq<Byte>, wide: bool)
    requires b != [] && GetSegments(b, wide).Some?
    ensures |b| > 2 && 0 < b[1] && 2 + Span(b[1], wide) <= |b| && CodeType(b[0]).Some?
    ensures var rest := GetSegments(b[2 + Span(b[1], wide)..], wide);
            && rest.Some?
            && GetSegments(b, wide).value == [Segment(CodeType(b[0]).value, GetData(b[2..], b[1], wide))] + rest.value
  {
    hide GetData;
  }

  lemma FirstItem(s: Segment, rest: seq<Item>)
    requires s.asns != [] && (Items(s) + rest)[0].Hop?
    ensures s.kind.AsSequence?
  {
    assert (Items(s) + rest)[0] == Items(s)[0];
  }

  lemma ResumeSequence(b: seq<Byte>, wide: bool)
    requires b != [] && GetSegments(b, wide).Some? && b[0] == 2
    ensures |b| > 2 && Some(Meaning(GetSegments(b, wide).value)) == Resume(b[2..], b[1], wide)
  {
    hide GetSegments, GetData, Items, Meaning;
    ParsedHead(b, wide);
    var n: int := b[1];
    MeaningCons(Segment(AsSequence, GetData(b[2..], n, wide)), GetSegments(b[2 + Span(n, wide)..], wide).value);
    assert b[2..][Span(n, wide)..] == b[2 + Span(n, wide)..];
  }

  lemma FirstIsSequence(b: seq<Byte>, wide: bool)
    requires b != [] && GetSegments(b, wide).Some?
    requires var m := Meaning(GetSegments(b, wide).value); m != [] && m[0].Hop?
    ensures b[0] == 2
  {
    hide GetSegments, GetData, Items, Meaning;
    ParsedHead(b, wide);
    var n: int := b[1];
    var s, rest := Segment(CodeType(b[0]).value, GetData(b[2..], n, wide)), GetSegments(b[2 + Span(n, wide)..], wide).value;
    MeaningCons(s, rest);
    FirstItem(s, Meaning(rest));
  }

  /** A segment header that the next item must come from. */
  lemma ResumeHeader(b: seq<Byte>, wide: bool)
    requires Resume(b, 0, wide).Some? && Resume(b, 0, wide).value != [] && Resume(b, 0, wide).value[0].Hop?
    ensures |b| > 2 && b[0] == 2 && Resume(b, 0, wide) == Resume(b[2..], b[1], wide)
  {
    assert b == [] ==> GetSegments(b, wide) == Some([]);
    NoHopsLeft(b, wide);
    hide GetSegments, Resume;
    FirstIsSequence(b, wide);
    ResumeSequence(b, wide);
  }

  lemma AsnBytes(b: seq<Byte>, a: Asn, wide: bool)
    requires |b| >= Width(wide) && GetAsn(b, wide) == a && WireAsn(a, wide) == a
    ensures b[..Width(wide)] == PutAsn(a, wide)
  {
    var v: int := a;
    var b0: int, b1: int := b[0], b[1];
    if wide {
      var b2: int, b3: int := b[2], b[3];
      assert v == ((b0 * 256 + b1) * 256 + b2) * 256 + b3;
      assert v / 256 == (b0 * 256 + b1) * 256 + b2 && v / 256 / 256 == b0 * 256 + b1;
    }
  }

  // ----- the parser never ends with the writer --------------------------------------

  /** The parser is ahead by the bytes `e`, and has `n` numbers to read where the writer has `y`
      left, before further heads.  It has too little to read. */
  predicate Behind(e: seq<Byte>, b: seq<Byte>, n: nat, y: seq<Asn>, hs: seq<Head>, after: seq<Byte>, wide: bool) {
    && HeadsOk(hs, wide) && Apart(after) && WireAsns(y, wide) == y
    && Twos(e) && e + b == PutData(y, wide) + Stream(hs, after, wide)
    && |y| + ByteSum(e) >= n + |e| + 1
  }

  lemma StreamStep(hs: seq<Head>, after: seq<Byte>, wide: bool)
    requires hs != []
    ensures Stream(hs, after, wide)
         == [TypeCode(hs[0].kind), hs[0].length] + (PutData(hs[0].asns, wide) + Stream(hs[1..], after, wide))
  {
  }

  lemma AheadStarts(e: seq<Byte>, b: seq<Byte>, n: nat, hs: seq<Head>, after: seq<Byte>, wide: bool)
    requires Behind(e, b, n, [], hs, after, wide)
    ensures |e| >= 2 && e[0] == 2 && e + b == Stream(hs, after, wide)
  {
    NoData(Stream(hs, after, wide), wide);
    assert e == [] ==> ByteSum(e) == 0;
    hide Stream, PutData, HeadsOk, WireAsns;
  }

  lemma NoData(rest: seq<Byte>, wide: bool)
    ensures PutData([], wide) + rest == rest
  {
  }

  lemma NotEmpty(hs: seq<Head>, after: seq<Byte>, wide: bool)
    requires Apart(after) && Stream(hs, after, wide) != [] && Stream(hs, after, wide)[0] == 2
    ensures hs != [] && hs[0].kind.AsSequence?
  {
  }

  lemma ReadAlready(e: seq<Byte>, b: seq<Byte>, t: Byte, m: Byte, more: seq<Byte>)
    requires |e| >= 2 && e + b == [t, m] + more
    ensures e[0] == t && e[1] == m && e[2..] + b == more
  {
    assert (e + b)[0] == e[0] && (e + b)[1] == e[1];
    assert (e + b)[2..] == e[2..] + b;
    assert ([t, m] + more)[2..] == more;
  }

  /** The writer goes on to its next segment, whose header the parser has read already. */
  lemma CrossHeader(e: seq<Byte>, b: seq<Byte>, n: nat, hs: seq<Head>, after: seq<Byte>, wide: bool)
    requires Behind(e, b, n, [], hs, after, wide)
    ensures hs != [] && hs[0].kind.AsSequence? && |e| >= 2
    ensures Behind(e[2..], b, n, hs[0].asns, hs[1..], after, wide)
  {
    hide Stream, PutData, ByteSum, WireAsns, Twos, Apart;
    AheadStarts(e, b, n, hs, after, wide);
    assert (e + b)[0] == e[0];
    NotEmpty(hs, after, wide);
    StreamStep(hs, after, wide);
    ReadAlready(e, b, TypeCode(hs[0].kind), hs[0].length, PutData(hs[0].asns, wide) + Stream(hs[1..], after, wide));
    TwosDrop(e, hs[0].length);
    assert HeadOk(hs[0], wide);
  }

  lemma NextHeader(e: seq<Byte>, b: seq<Byte>, y: seq<Asn>, hs: seq<Head>, after: seq<Byte>, wide: bool)
    requires Behind(e, b, 0, y, hs, after, wide) && |b| > 2 && b[0] == 2
    ensures Behind(e + [2, b[1]], b[2..], b[1], y, hs, after, wide)
  {
    hide Stream, PutData, ByteSum, HeadsOk, WireAsns, Apart;
    TwosAppend(e, b[1]);
    assert b == [2, b[1]] + b[2..];
    AppendAssoc(e, [2, b[1]], b[2..]);
  }

  lemma WireAsnsTail(y: seq<Asn>, wide: bool)
    requires y != [] && WireAsns(y, wide) == y
    ensures WireAsn(y[0], wide) == y[0] && WireAsns(y[1..], wide) == y[1..]
  {
    hide WireAsn;
    assert WireAsns(y, wide)[0] == WireAsn(y[0], wide);
    forall i | 0 <= i < |y| - 1 ensures WireAsns(y[1..], wide)[i] == y[1..][i] {
      assert WireAsns(y, wide)[i + 1] == y[i + 1];
    }
  }

  lemma NextHop(e: seq<Byte>, b: seq<Byte>, n: nat, y: seq<Asn>, hs: seq<Head>, after: seq<Byte>, wide: bool)
    returns (e': seq<Byte>)
    requires Behind(e, b, n, y, hs, after, wide) && n > 0 && y != []
    requires |b| >= Width(wide) && GetAsn(b, wide) == y[0]
    ensures Behind(e', b[Width(wide)..], n - 1, y[1..], hs, after, wide)
  {
    WireAsnsTail(y, wide);
    AsnBytes(b, y[0], wide);
    var a := PutAsn(y[0], wide);
    assert PutData(y, wide) == a + PutData(y[1..], wide);
    hide Stream, PutData, PutAsn, GetAsn, ByteSum, HeadsOk, WireAsns, Twos, Apart;
    AppendAssoc(a, PutData(y[1..], wide), Stream(hs, after, wide));
    e' := Shifted(e, b, a, PutData(y[1..], wide) + Stream(hs, after, wide));
  }

  /** Whatever was meant by the bytes after the heads. */
  lemma {:induction false} NeverAgrees(e: seq<Byte>, b: seq<Byte>, n: nat, y: seq<Asn>, hs: seq<Head>,
                                       after: seq<Byte>, tail: seq<Item>, wide: bool)
    requires Behind(e, b, n, y, hs, after, wide)
    ensures Resume(b, n, wide) != Some(Hops(y) + Meant(hs, tail))
    decreases |b|, |hs|
  {
    hide Behind, Resume, Items;
    var meant := Meant(hs, tail);
    if y == [] {
      CrossHeader(e, b, n, hs, after, wide);
      NeverAgrees(e[2..], b, n, hs[0].asns, hs[1..], after, tail, wide);
      EmptyHops();
      assert [] + meant == meant;
    } else if Resume(b, n, wide) == Some(Hops(y) + meant) {
      HopsCons(y);
      AppendAssoc([Hop(y[0])], Hops(y[1..]), meant);
      if n == 0 {
        ResumeHeader(b, wide);
        NextHeader(e, b, y, hs, after, wide);
        NeverAgrees(e + [2, b[1]], b[2..], b[1], y, hs, after, tail, wide);
      } else {
        ResumeHop(b, n, wide);
        SameHead(Hop(y[0]), Hops(y[1..]) + meant, Hop(GetAsn(b, wide)), Resume(b[Width(wide)..], n - 1, wide).value);
        var e' := NextHop(e, b, n, y, hs, after, wide);
        NeverAgrees(e', b[Width(wide)..], n - 1, y[1..], hs, after, tail, wide);
      }
    }
  }

  lemma EmptyHops()
    ensures Hops([]) == []
  {
  }

  lemma SameHead<T>(a: T, s: seq<T>, b: T, t: seq<T>)
    requires [a] + s == [b] + t
    ensures a == b && s == t
  {
    assert ([a] + s)[0] == a && ([b] + t)[0] == b;
    assert ([a] + s)[1..] == s && ([b] + t)[1..] == t;
  }

  // ----- whole streams --------------------------------------------------------------

  lemma HeadData(h: Head, rest: seq<Byte>, wide: bool)
    requires HeadOk(h, wide)
    ensures var b := [TypeCode(h.kind), h.length] + (PutData(h.asns, wide) + rest);
            var n: int := h.length;
            && |b| >= 2 + Span(n, wide) && CodeType(b[0]) == Some(h.kind)
            && GetData(b[2..], n, wide) == h.asns[..n]
            && b[2 + Span(n, wide)..] == PutData(h.asns[n..], wide) + rest
  {
    var n: int := h.length;
    var a, x := h.asns[..n], h.asns[n..];
    var b := [TypeCode(h.kind), h.length] + (PutData(h.asns, wide) + rest);
    assert h.asns == a + x;
    PutDataConcat(a, x, wide);
    assert WireAsns(a, wide) == a by { WireAsnsPrefix(h.asns, n, wide); }
    hide PutData, GetData, WireAsns;
    var tail := PutData(x, wide) + rest;
    AppendAssoc(PutData(a, wide), PutData(x, wide), rest);
    assert b[2..] == PutData(a, wide) + tail;
    DataRoundTrip(a, tail, wide);
    assert b[2 + Span(n, wide)..] == b[2..][Span(n, wide)..] == tail;
  }

  lemma WireAsnsPrefix(y: seq<Asn>, n: nat, wide: bool)
    requires n <= |y| && WireAsns(y, wide) == y
    ensures WireAsns(y[..n], wide) == y[..n] && WireAsns(y[n..], wide) == y[n..]
  {
    hide WireAsn;
    forall i | 0 <= i < |y| ensures WireAsn(y[i], wide) == y[i] {
      assert WireAsns(y, wide)[i] == y[i];
    }
  }

  /** The first segment as the parser reads it, and the bytes it goes on with. */
  lemma ReadFirst(hs: seq<Head>, after: seq<Byte>, wide: bool)
    requires hs != [] && HeadOk(hs[0], wide)
    ensures var n: int, h := hs[0].length, hs[0];
            GetSegments(Stream(hs, after, wide), wide)
              == Prepend([Segment(h.kind, h.asns[..n])],
                         GetSegments(PutData(h.asns[n..], wide) + Stream(hs[1..], after, wide), wide))
  {
    hide GetData, PutData, Stream, WireAsns, GetSegments, Prepend;
    StreamStep(hs, after, wide);
    HeadData(hs[0], Stream(hs[1..], after, wide), wide);
    GetSegmentsStep(Stream(hs, after, wide), hs[0].kind, hs[0].length, wide);
  }

  lemma Cancel(a: seq<Item>, b: seq<Item>, c: seq<Item>)
    ensures a + b == a + c <==> b == c
  {
    if a + b == a + c {
      assert (a + b)[|a|..] == b && (a + c)[|a|..] == c;
    }
  }

  lemma HopsSplit(s: seq<Asn>, n: nat)
    requires n <= |s|
    ensures Hops(s) == Hops(s[..n]) + Hops(s[n..])
  {
  }

  /** Numbers that were not counted. */
  lemma Uncounted(x: seq<Asn>, rest: seq<Head>, after: seq<Byte>, tail: seq<Item>, wide: bool)
    requires x != [] && HeadsOk(rest, wide) && Apart(after) && WireAsns(x, wide) == x
    ensures !Reads(PutData(x, wide) + Stream(rest, after, wide), Hops(x) + Meant(rest, tail), wide)
  {
    hide GetSegments, Items, PutData, Stream, WireAsns, HeadsOk, Resume, Meaning, Meant, Apart;
    var b := PutData(x, wide) + Stream(rest, after, wide);
    assert [] + b == b;
    NeverAgrees([], b, 0, x, rest, after, tail, wide);
    NoHopsLeft(b, wide);
  }

  lemma FirstHops(h: Head, n: nat, more: Path, meant: seq<Item>)
    requires h.kind.AsSequence? && n <= |h.asns|
    ensures Meaning([Segment(h.kind, h.asns[..n])] + more) == Items(SegmentOf(h)) + meant
       <==> Meaning(more) == Hops(h.asns[n..]) + meant
  {
    HopsSplit(h.asns, n);
    hide Items, Meaning;
    MeaningCons(Segment(h.kind, h.asns[..n]), more);
    AppendAssoc(Hops(h.asns[..n]), Hops(h.asns[n..]), meant);
    Cancel(Hops(h.asns[..n]), Meaning(more), Hops(h.asns[n..]) + meant);
  }

  /** Too small a length in the first segment. */
  lemma FirstMisread(hs: seq<Head>, after: seq<Byte>, tail: seq<Item>, wide: bool)
    requires hs != [] && HeadOk(hs[0], wide) && HeadsOk(hs[1..], wide) && hs[0].length < |hs[0].asns| && Apart(after)
    ensures !Reads(Stream(hs, after, wide), Meant(hs, tail), wide)
  {
    hide GetSegments, Items, PutData, Stream, WireAsns, HeadsOk, Meaning, Apart;
    var h, rest := hs[0], hs[1..];
    ReadFirst(hs, after, wide);
    WireAsnsPrefix(h.asns, h.length, wide);
    Uncounted(h.asns[h.length..], rest, after, tail, wide);
    var more := GetSegments(PutData(h.asns[h.length..], wide) + Stream(rest, after, wide), wide);
    if more.Some? {
      FirstHops(h, h.length, more.value, Meant(rest, tail));
    }
  }

  /** A right length in the first segment. */
  lemma FirstRead(hs: seq<Head>, after: seq<Byte>, tail: seq<Item>, wide: bool)
    requires hs != [] && HeadOk(hs[0], wide) && hs[0].length == |hs[0].asns|
    ensures Reads(Stream(hs, after, wide), Meant(hs, tail), wide)
       <==> Reads(Stream(hs[1..], after, wide), Meant(hs[1..], tail), wide)
  {
    hide GetSegments, Items, PutData, Stream, WireAsns, Meaning;
    var h, rest := hs[0], hs[1..];
    ReadFirst(hs, after, wide);
    assert h.asns[..h.length] == h.asns && h.asns[h.length..] == [];
    NoData(Stream(rest, after, wide), wide);
    var more := GetSegments(Stream(rest, after, wide), wide);
    if more.Some? {
      MeaningCons(SegmentOf(h), more.value);
      Cancel(Items(SegmentOf(h)), Meaning(more.value), Meant(rest, tail));
    }
  }

  lemma HeadsTail(hs: seq<Head>, wide: bool)
    requires hs != []
    ensures HeadsOk(hs, wide) <==> HeadOk(hs[0], wide) && HeadsOk(hs[1..], wide)
    ensures Exact(hs) <==> hs[0].length == |hs[0].asns| && Exact(hs[1..])
  {
    hide HeadOk;
    assert forall i :: 0 < i < |hs| ==> hs[i] == hs[1..][i - 1];
    assert forall i :: 0 <= i < |hs| - 1 ==> hs[1..][i] == hs[i + 1];
  }

  /** Main result: before bytes that do not go on with an AS_SEQUENCE, the parser reads some heads
      as they were meant, and what follows as it was meant, exactly when every length byte is right
      and what follows is read so on its own. */
  lemma {:induction false} ReadAsMeant(hs: seq<Head>, after: seq<Byte>, tail: seq<Item>, wide: bool)
    requires HeadsOk(hs, wide) && Apart(after)
    ensures Reads(Stream(hs, after, wide), Meant(hs, tail), wide) <==> Exact(hs) && Reads(after, tail, wide)
  {
    if hs != [] {
      HeadsTail(hs, wide);
      hide Reads, Stream, Meant, HeadsOk, Exact, Apart;
      if hs[0].length < |hs[0].asns| {
        FirstMisread(hs, after, tail, wide);
      } else {
        FirstRead(hs, after, tail, wide);
        ReadAsMeant(hs[1..], after, tail, wide);
      }
    }
  }
}
