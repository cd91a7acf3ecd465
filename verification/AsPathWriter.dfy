/** aspath_put as coded, on a stream with a bound (bgpd/bgp_aspath.c, lib/stream.c).

    A write that the stream has no room for fails an assertion, and the daemon aborts.  Before it
    begins a segment aspath_put tests for the length of that segment, but neither for the headers
    of the chunks it may be cut into nor for the segments that may be packed into it. */
module AsPathWriter {
  import opened Bytes
  import opened Seqs
  import opened AsPath
  import opened AsPathWire

  /** stream_putc, stream_putw and stream_putl. */
  method StreamPut(out: seq<Byte>, size: nat, piece: seq<Byte>) returns (buf: seq<Byte>, aborted: bool)
    ensures aborted <==> |out| + |piece| > size
    ensures buf == if aborted then out else out + piece
  {
    if size - |out| < |piece| {
      return out, true;
    }
    return out + piece, false;
  }

  /** assegment_data_put: number by number. */
  method WriteData(out: seq<Byte>, asns: seq<Asn>, wide: bool, size: nat) returns (buf: seq<Byte>, aborted: bool)
    requires |out| <= size
    ensures out <= buf && |buf| <= size
    ensures aborted <==> |out| + Span(|asns|, wide) > size
    ensures !aborted ==> buf == out + PutData(asns, wide)
  {
    hide PutAsn;
    buf, aborted := out, false;
    ghost var rest := asns;
    for i := 0 to |asns|
      invariant rest == asns[i..] && out <= buf && |buf| <= size && !aborted
      invariant |buf| == |out| + Span(i, wide) && buf + PutData(rest, wide) == out + PutData(asns, wide)
    {
      AppendAssoc(buf, PutAsn(asns[i], wide), PutData(rest[1..], wide));
      buf, aborted := StreamPut(buf, size, PutAsn(asns[i], wide));
      if aborted {
        return;
      }
      rest := rest[1..];
    }
    assert buf + [] == buf;
  }

  /** assegment_header_put and the data behind it. */
  method WriteChunk(out: seq<Byte>, k: SegType, asns: seq<Asn>, wide: bool, size: nat)
    returns (buf: seq<Byte>, aborted: bool)
    requires |out| <= size && |asns| <= AS_SEGMENT_MAX
    ensures out <= buf && |buf| <= size
    ensures aborted <==> |out| + 2 + Span(|asns|, wide) > size
    ensures !aborted ==> buf == out + (PutHeader(k, |asns|) + PutData(asns, wide))
  {
    hide PutData;
    buf, aborted := StreamPut(out, size, [TypeCode(k)]);
    if aborted {
      return;
    }
    buf, aborted := StreamPut(buf, size, [|asns|]);
    if aborted {
      return;
    }
    assert buf == out + PutHeader(k, |asns|);
    AppendAssoc(out, PutHeader(k, |asns|), PutData(asns, wide));
    buf, aborted := WriteData(buf, asns, wide, size);
  }

  /** The inner loop: cuts an overlong segment, then writes what is left. */
  method WriteSegment(out: seq<Byte>, s: Segment, wide: bool, size: nat)
    returns (buf: seq<Byte>, bytes: nat, aborted: bool)
    requires |out| <= size
    ensures out <= buf && |buf| <= size
    ensures aborted <==> |out| + |PutChunks(s, 0, wide)| > size
    ensures !aborted ==> buf == out + PutChunks(s, 0, wide) && bytes == ReportedSize(|s.asns|, 0, wide)
  {
    hide PutData;
    buf, bytes, aborted := out, 0, false;
    var written := 0;
    while |s.asns| - written > AS_SEGMENT_MAX
      invariant written <= |s.asns| && out <= buf && |buf| <= size && !aborted
      invariant buf + PutChunks(s, written, wide) == out + PutChunks(s, 0, wide)
      invariant bytes + ReportedSize(|s.asns|, written, wide) == ReportedSize(|s.asns|, 0, wide)
    {
      ghost var chunk := PutHeader(s.kind, AS_SEGMENT_MAX) + PutData(s.asns[..AS_SEGMENT_MAX], wide);
      AppendAssoc(buf, chunk, PutChunks(s, written + AS_SEGMENT_MAX, wide));
      assert |buf| + |PutChunks(s, written, wide)| == |out| + |PutChunks(s, 0, wide)|;
      buf, aborted := WriteChunk(buf, s.kind, s.asns[..AS_SEGMENT_MAX], wide, size);
      if aborted {
        return;
      }
      written := written + AS_SEGMENT_MAX;
      bytes := bytes + 2 + Span(written, wide);
    }
    assert |buf| + |PutChunks(s, written, wide)| == |out| + |PutChunks(s, 0, wide)|;
    buf, aborted := WriteChunk(buf, s.kind, s.asns[written..], wide, size);
    bytes := bytes + 2 + Span(|s.asns| - written, wide);
  }

  // ----- the packing loop -----------------------------------------------------------

  /** The packing loop has gone through `k` segments and written `done`. */
  ghost predicate Packing(s: Segment, next: Path, k: nat, asns: nat, done: seq<Byte>, wide: bool) {
    && k <= |next|
    && k + PackRun(s, next[k..]) == PackRun(s, next)
    && asns + PackedCount(next[k..], PackRun(s, next[k..])) == PackedCount(next, PackRun(s, next))
    && done + PackedData(next[k..], PackRun(s, next[k..]), wide) == PackedData(next, PackRun(s, next), wide)
  }

  lemma PackingStart(s: Segment, next: Path, wide: bool)
    ensures Packing(s, next, 0, 0, [], wide)
  {
    assert next[0..] == next;
    var d := PackedData(next, PackRun(s, next), wide);
    assert [] + d == d;
  }

  lemma PackingStep(s: Segment, next: Path, k: nat, asns: nat, done: seq<Byte>, wide: bool)
    requires Packing(s, next, k, asns, done, wide) && k < |next| && Packable(s, next[k])
    ensures Packing(s, next, k + 1, asns + |next[k].asns|, done + PutData(next[k].asns, wide), wide)
  {
    hide PutData;
    var rest := next[k..];
    assert rest[0] == next[k] && rest[1..] == next[k + 1..];
    AppendAssoc(done, PutData(next[k].asns, wide), PackedData(rest[1..], PackRun(s, rest[1..]), wide));
  }

  lemma PackingSize(s: Segment, next: Path, k: nat, asns: nat, done: seq<Byte>, wide: bool)
    requires Packing(s, next, k, asns, done, wide)
    ensures |done| <= |PackedData(next, PackRun(s, next), wide)|
  {
  }

  lemma PackingEnd(s: Segment, next: Path, k: nat, asns: nat, done: seq<Byte>, wide: bool)
    requires Packing(s, next, k, asns, done, wide) && (k == |next| || !Packable(s, next[k]))
    ensures k == PackRun(s, next) && asns == PackedCount(next, k) && done == PackedData(next, k, wide)
  {
    assert PackRun(s, next[k..]) == 0;
    assert done + [] == done;
  }

  lemma PatchAgain(given: seq<Byte>, at: nat, m: Byte, n: Byte, done: seq<Byte>, more: seq<Byte>)
    requires at < |given|
    ensures ((given[at := m] + done) + more)[at := n] == given[at := n] + (done + more)
  {
    AppendAssoc(given[at := m], done, more);
    assert (given[at := m] + (done + more))[at := n] == given[at := m][at := n] + (done + more);
  }

  /** The inner loop that packs the segments behind `s` into what was written for it; the length
      byte of `s` is at `at`. */
  method PackFollowing(given: seq<Byte>, at: nat, s: Segment, next: Path, wide: bool, size: nat)
    returns (buf: seq<Byte>, k: nat, asns: nat, aborted: bool)
    requires at < |given| <= size
    ensures |buf| <= size
    ensures aborted <==> |given| + |PackedData(next, PackRun(s, next), wide)| > size
    ensures !aborted ==> k == PackRun(s, next) && asns == PackedCount(next, k)
    ensures !aborted ==>
              buf == (if k == 0 then given else given[at := |s.asns| + |next[k - 1].asns|]) + PackedData(next, k, wide)
  {
    hide PutData, PackedCount, PackedData, PackRun, Packing;
    buf, k, asns, aborted := given, 0, 0, false;
    ghost var mark: Byte, done: seq<Byte> := given[at], [];
    assert given[at := mark] + done == given && given[at := mark] == given;
    PackingStart(s, next, wide);
    while k < |next| && Packable(s, next[k])
      invariant k <= |next| && Packing(s, next, k, asns, done, wide) && !aborted
      invariant |buf| <= size && buf == given[at := mark] + done
      invariant if k == 0 then mark == given[at] else Packable(s, next[k - 1]) && mark == |s.asns| + |next[k - 1].asns|
    {
      PackingStep(s, next, k, asns, done, wide);
      var n: Byte := |s.asns| + |next[k].asns|;
      PatchAgain(given, at, mark, n, done, PutData(next[k].asns, wide));
      mark, done, asns := n, done + PutData(next[k].asns, wide), asns + |next[k].asns|;
      PackingSize(s, next, k + 1, asns, done, wide);
      buf, aborted := WriteData(buf, next[k].asns, wide, size);
      if aborted {
        return;
      }
      buf := buf[at := n];
      k := k + 1;
    }
    PackingEnd(s, next, k, asns, done, wide);
  }

  // ----- the whole writer -----------------------------------------------------------

  lemma PatchedHeader(out: seq<Byte>, s: Segment, n: nat, more: seq<Byte>, wide: bool)
    requires |s.asns| + n <= AS_SEGMENT_MAX
    ensures (out + (PutHeader(s.kind, |s.asns|) + PutData(s.asns, wide)))[|out| + 1 := |s.asns| + n] + more
         == out + (PutHeader(s.kind, |s.asns| + n) + PutData(s.asns, wide) + more)
  {
    hide PutData;
    var b := out + (PutHeader(s.kind, |s.asns|) + PutData(s.asns, wide));
    assert b[|out| + 1 := |s.asns| + n] == out + (PutHeader(s.kind, |s.asns| + n) + PutData(s.asns, wide));
    AppendAssoc(out, PutHeader(s.kind, |s.asns| + n) + PutData(s.asns, wide), more);
  }

  /** A segment that others are packed into. */
  lemma HeadOfSome(s: Segment, next: Path, wide: bool)
    requires next != [] && Packable(s, next[0])
    ensures PackRun(s, next) > 0 && PutChunks(s, 0, wide) == PutHeader(s.kind, |s.asns|) + PutData(s.asns, wide)
    ensures var k := PackRun(s, next);
            && |s.asns| + |next[k - 1].asns| <= AS_SEGMENT_MAX
            && PutHead(s, next, wide)
            == PutHeader(s.kind, |s.asns| + |next[k - 1].asns|) + PutData(s.asns, wide) + PackedData(next, k, wide)
            && ReportedHead(s, next, wide) == 2 + Span(|s.asns| + PackedCount(next, k), wide)
  {
    hide PutData, PackedData, PackedCount;
    assert s.asns[0..] == s.asns;
  }

  /** The size of what is written for a segment. */
  lemma HeadSize(s: Segment, next: Path, wide: bool)
    ensures |PutHead(s, next, wide)| == |PutChunks(s, 0, wide)| + |PackedData(next, PackRun(s, next), wide)|
  {
    hide PutData, PutChunks, PackRun, PackedData, PutHead, PackedCount, ReportedHead;
    if next == [] || !Packable(s, next[0]) {
      HeadAlone(s, next, wide);
    } else {
      HeadOfSome(s, next, wide);
    }
  }

  /** One round of `aspath_put`. */
  method WriteHead(out: seq<Byte>, s: Segment, next: Path, wide: bool, size: nat)
    returns (buf: seq<Byte>, bytes: nat, k: nat, aborted: bool)
    requires |out| <= size
    ensures |buf| <= size
    ensures aborted <==> |out| + |PutHead(s, next, wide)| > size
    ensures !aborted ==>
              buf == out + PutHead(s, next, wide) && bytes == ReportedHead(s, next, wide) && k == PackRun(s, next)
  {
    hide PutData, PutChunks, PackRun, PackedData, PutHead, PackedCount, ReportedHead, ReportedSize, PutHeader;
    HeadSize(s, next, wide);
    k := 0;
    buf, bytes, aborted := WriteSegment(out, s, wide, size);
    if aborted {
      return;
    }
    if next == [] || !Packable(s, next[0]) {
      HeadAlone(s, next, wide);
      return;
    }
    HeadOfSome(s, next, wide);
    HeaderSize(s, wide);
    var asns;
    buf, k, asns, aborted := PackFollowing(buf, |out| + 1, s, next, wide, size);
    if aborted {
      return;
    }
    bytes := 2 + Span(|s.asns| + asns, wide);
    PatchedHeader(out, s, |next[k - 1].asns|, PackedData(next, k, wide), wide);
  }

  lemma HeaderSize(s: Segment, wide: bool)
    requires |s.asns| <= AS_SEGMENT_MAX
    ensures |PutHeader(s.kind, |s.asns|) + PutData(s.asns, wide)| >= 2
  {
  }

  /** The test before a segment is begun. */
  predicate Begins(s: Segment, room: nat, wide: bool) {
    2 + Span(|s.asns|, wide) <= room
  }

  /** Some segment is begun for which, with what it is cut into and what is packed into it, the
      room left does not suffice. */
  predicate Overruns(p: Path, room: nat, wide: bool)
    decreases |p|
  {
    && p != [] && Begins(p[0], room, wide)
    && var n := |PutFirst(p, wide)|;
       n > room || Overruns(Rest(p), room - n, wide)
  }

  lemma OverrunsStep(p: Path, room: nat, wide: bool)
    requires p != [] && Begins(p[0], room, wide)
    ensures var n := |PutFirst(p, wide)|;
            Overruns(p, room, wide) <==> n > room || Overruns(Rest(p), room - n, wide)
  {
    hide PutFirst, Rest;
  }

  /** A stream with room for the whole path takes the whole path. */
  lemma {:induction false} RoomSuffices(p: Path, room: nat, wide: bool)
    requires |PutAll(p, wide)| <= room
    ensures !Overruns(p, room, wide)
    ensures p != [] ==> Begins(p[0], room, wide)
    decreases |p|
  {
    hide PutFirst, Rest;
    if p != [] {
      var n := |PutFirst(p, wide)|;
      RoomSuffices(Rest(p), room - n, wide);
    }
  }

  /** Nothing to cut and nothing to pack. */
  predicate Plain(p: Path) {
    forall i :: 0 <= i < |p| ==> |p[i].asns| <= AS_SEGMENT_MAX && (i + 1 < |p| ==> !Packable(p[i], p[i + 1]))
  }

  lemma PlainStep(p: Path)
    requires p != []
    ensures Plain(p) <==> |p[0].asns| <= AS_SEGMENT_MAX && Taken(p) == 0 && Plain(p[1..])
    ensures Taken(p) == 0 ==> Rest(p) == p[1..]
  {
    hide Packable;
    var rest := p[1..];
    assert |p| > 1 ==> rest[0] == p[1];
    if Plain(p) {
      assert |p[0].asns| <= AS_SEGMENT_MAX && (0 + 1 < |p| ==> !Packable(p[0], p[0 + 1]));
      forall i | 0 <= i < |rest| ensures |rest[i].asns| <= AS_SEGMENT_MAX && (i + 1 < |rest| ==> !Packable(rest[i], rest[i + 1])) {
        assert rest[i] == p[i + 1];
        assert i + 1 < |rest| ==> rest[i + 1] == p[i + 1 + 1];
      }
    }
    if |p[0].asns| <= AS_SEGMENT_MAX && PackRun(p[0], rest) == 0 && Plain(rest) {
      forall i | 0 <= i < |p| ensures |p[i].asns| <= AS_SEGMENT_MAX && (i + 1 < |p| ==> !Packable(p[i], p[i + 1])) {
        if i > 0 {
          assert p[i] == rest[i - 1];
          assert i + 1 < |p| ==> p[i + 1] == rest[i - 1 + 1];
        }
      }
    }
  }

  /** What is begun fits, whatever the numbers, exactly if it is neither cut nor takes in another. */
  lemma HeadFits(s: Segment, next: Path, wide: bool)
    requires NoEmptySegment(next)
    ensures |PutHead(s, next, wide)| == 2 + Span(|s.asns|, wide) <==>
              |s.asns| <= AS_SEGMENT_MAX && PackRun(s, next) == 0
  {
    hide PutData;
    var k := PackRun(s, next);
    HeadSize(s, next, wide);
    assert k > 0 ==> Packable(s, next[k - 1]) && |PackedData(next, k, wide)| >= Span(|next[0].asns|, wide) > 0;
    assert s.asns[0..] == s.asns;
  }

  lemma {:induction false} PlainNeverOverruns(p: Path, room: nat, wide: bool)
    requires Plain(p)
    ensures !Overruns(p, room, wide)
    decreases |p|
  {
    if p != [] {
      PlainStep(p);
      hide PutData, Plain;
      var n := 2 + Span(|p[0].asns|, wide);
      assert |PutFirst(p, wide)| == n;
      if n <= room {
        PlainNeverOverruns(p[1..], room - n, wide);
      }
    }
  }

  predicate Suffix(seg: Path, p: Path) {
    |seg| <= |p| && seg == p[|p| - |seg|..]
  }

  /** What has been written, before `seg` is begun. */
  ghost predicate Progress(p: Path, seg: Path, buf: seq<Byte>, bytes: nat, room: nat, wide: bool) {
    && |buf| <= room && Suffix(seg, p)
    && buf + PutAll(seg, wide) == PutAll(p, wide)
    && bytes + ReportedAll(seg, wide) == ReportedAll(p, wide)
    && (Overruns(p, room, wide) <==> Overruns(seg, room - |buf|, wide))
  }

  lemma ProgressStart(p: Path, room: nat, wide: bool)
    ensures Progress(p, p, [], 0, room, wide)
  {
    hide PutAll, ReportedAll, Overruns;
    assert [] + PutAll(p, wide) == PutAll(p, wide) && p[0..] == p;
  }

  lemma RestIsSuffix(p: Path, seg: Path)
    requires seg != [] && Suffix(seg, p)
    ensures Suffix(Rest(seg), p)
  {
    hide Taken;
  }

  lemma ProgressStep(p: Path, seg: Path, buf: seq<Byte>, bytes: nat, room: nat, wide: bool)
    requires Progress(p, seg, buf, bytes, room, wide) && seg != [] && Begins(seg[0], room - |buf|, wide)
    requires |buf| + |PutFirst(seg, wide)| <= room
    ensures Progress(p, Rest(seg), buf + PutFirst(seg, wide), bytes + ReportedFirst(seg, wide), room, wide)
  {
    hide PutAll, ReportedAll, PutFirst, ReportedFirst, Rest, Overruns, Begins, Suffix;
    RestIsSuffix(p, seg);
    PutAllStep(seg, wide);
    OverrunsStep(seg, room - |buf|, wide);
    AppendAssoc(buf, PutFirst(seg, wide), PutAll(Rest(seg), wide));
  }

  /** The writer stopped at `left`, which does not fit although it was begun. */
  ghost predicate AbortedAt(p: Path, left: Path, room: nat, wide: bool) {
    && left != [] && Suffix(left, p)
    && var rest := room + |PutAll(left, wide)| - |PutAll(p, wide)|;
       0 <= rest < |PutFirst(left, wide)| && Begins(left[0], rest, wide)
  }

  lemma ProgressAborts(p: Path, seg: Path, buf: seq<Byte>, bytes: nat, room: nat, wide: bool)
    requires Progress(p, seg, buf, bytes, room, wide) && seg != [] && Begins(seg[0], room - |buf|, wide)
    requires |buf| + |PutFirst(seg, wide)| > room
    ensures Overruns(p, room, wide) && AbortedAt(p, seg, room, wide)
  {
    hide PutAll, ReportedAll, PutFirst, Rest, Overruns, Begins;
    OverrunsStep(seg, room - |buf|, wide);
    assert |buf| + |PutAll(seg, wide)| == |PutAll(p, wide)|;
  }

  lemma ProgressEnds(p: Path, seg: Path, buf: seq<Byte>, bytes: nat, room: nat, wide: bool)
    requires Progress(p, seg, buf, bytes, room, wide) && (seg == [] || !Begins(seg[0], room - |buf|, wide))
    ensures !Overruns(p, room, wide)
    ensures |PutAll(p, wide)| <= room ==> seg == [] && buf == PutAll(p, wide) && bytes == ReportedAll(p, wide)
  {
    assert |buf| + |PutAll(seg, wide)| == |PutAll(p, wide)|;
    if |PutAll(p, wide)| <= room {
      RoomSuffices(seg, room - |buf|, wide);
      assert buf + [] == buf;
    }
  }

  lemma NeverAborts(p: Path, room: nat, wide: bool)
    ensures Plain(p) || |PutAll(p, wide)| <= room ==> !Overruns(p, room, wide)
  {
    if |PutAll(p, wide)| <= room {
      RoomSuffices(p, room, wide);
    } else if Plain(p) {
      PlainNeverOverruns(p, room, wide);
    }
  }

  /** `aspath_put` to a stream with room for `room` bytes.  It aborts exactly if it overruns; `left`
      is then the path from the segment that does not fit.  Otherwise `left` is what was not
      begun, and everything before it is written as it should be. */
  method WritePath(p: Path, wide: bool, room: nat)
    returns (buf: seq<Byte>, bytes: nat, aborted: bool, ghost left: Path)
    ensures |buf| <= room
    ensures p == [] || p[0].asns == [] ==> buf == [] && bytes == 0 && !aborted
    ensures p != [] && p[0].asns != [] ==> (aborted <==> Overruns(p, room, wide))
    ensures aborted ==> AbortedAt(p, left, room, wide)
    ensures p != [] && p[0].asns != [] && !aborted ==>
              && Suffix(left, p)
              && buf + PutAll(left, wide) == PutAll(p, wide)
              && bytes + ReportedAll(left, wide) == ReportedAll(p, wide)
              && (left != [] ==> !Begins(left[0], room - |buf|, wide))
              && (|PutAll(p, wide)| <= room ==> left == [] && buf == PutAll(p, wide) && bytes == ReportedAll(p, wide))
    ensures Plain(p) || |PutAll(p, wide)| <= room ==> !aborted
  {
    hide PutAll, ReportedAll, PutHead, ReportedHead, PackRun, Overruns, Begins, AbortedAt, Plain;
    buf, bytes, aborted, left := [], 0, false, p;
    if p == [] || p[0].asns == [] {
      return;
    }
    NeverAborts(p, room, wide);
    var seg := p;
    ProgressStart(p, room, wide);
    while seg != [] && Begins(seg[0], room - |buf|, wide)
      invariant !aborted && Progress(p, seg, buf, bytes, room, wide)
      decreases |seg|
    {
      ghost var before := buf;
      var k, n;
      buf, n, k, aborted := WriteHead(buf, seg[0], seg[1..], wide, room);
      if aborted {
        ProgressAborts(p, seg, before, bytes, room, wide);
        left := seg;
        return;
      }
      ProgressStep(p, seg, before, bytes, room, wide);
      bytes := bytes + n;
      seg := seg[1 + k..];
    }
    left := seg;
    ProgressEnds(p, seg, buf, bytes, room, wide);
  }

  // ----- safe paths ---------------------------------------------------------------

  /** A room at which a path is begun that then does not fit: up to the first segment that is cut
      or takes in another there is enough, and for that segment as much as is tested for. */
  lemma {:induction false} RoomThatOverruns(p: Path, wide: bool) returns (room: nat)
    requires NoEmptySegment(p) && !Plain(p)
    ensures Overruns(p, room, wide)
    decreases |p|
  {
    var n := |PutFirst(p, wide)|;
    room := 2 + Span(|p[0].asns|, wide);
    HeadFits(p[0], p[1..], wide);
    PlainStep(p);
    hide PutFirst, Taken, Plain;
    if n == room {
      var more := RoomThatOverruns(p[1..], wide);
      room := n + more;
    }
  }

  /** Main result: aspath_put is safe for every room exactly on paths in which nothing is cut and
      nothing is packed. */
  lemma SafeForEveryRoom(p: Path, wide: bool)
    requires NoEmptySegment(p)
    ensures (forall room: nat :: !Overruns(p, room, wide)) <==> Plain(p)
  {
    if Plain(p) {
      forall room: nat ensures !Overruns(p, room, wide) {
        PlainNeverOverruns(p, room, wide);
      }
    } else {
      var room := RoomThatOverruns(p, wide);
    }
  }

  /** The smallest failure: for 256 numbers in one segment there are two bytes less than needed
      when there is as much room as is tested for. */
  lemma TwoBytesShort(s: Segment, wide: bool)
    requires |s.asns| == 256
    ensures var room := 2 + Span(256, wide);
            Begins(s, room, wide) && |PutAll([s], wide)| == room + 2 && Overruns([s], room, wide)
  {
    hide PutData;
    assert [s][1..] == [];
    assert |PutChunks(s, 255, wide)| == 2 + Span(1, wide);
    assert |PutChunks(s, 0, wide)| == 2 + Span(255, wide) + (2 + Span(1, wide));
  }
}
