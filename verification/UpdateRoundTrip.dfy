/** Reading back what the sender wrote: after every message the decoder knows at least what the
    encoder relies on, and each update comes out with the fields it went in with. */
module UpdateRoundTrip {
  import opened Wrappers
  import opened Bytes
  import opened Seqs
  import opened UpdateCodec

  // ----- prefixes -------------------------------------------------------------------

  lemma MaskAgree(a: Address, b: Address, plen: nat)
    requires plen <= 128 && a[..PrefixBytes(plen)] == b[..PrefixBytes(plen)]
    ensures MaskPrefix(a, plen) == MaskPrefix(b, plen)
  {
    var n := PrefixBytes(plen);
    forall i | 0 <= i < 16 ensures MaskPrefix(a, plen)[i] == MaskPrefix(b, plen)[i] {
      if i < n {
        assert a[i] == a[..n][i] && b[i] == b[..n][i];
      }
    }
  }

  /** A canonical prefix in the IPv4-mapped range is an IPv4 prefix. */
  lemma MappedMeansV4(p: Address, plen: nat)
    requires Canonical(p, plen) && V4Mapped(p)
    ensures plen >= 96
  {
    assert p[11] == p[..12][11] == 255;
    assert plen < 128 ==> MaskPrefix(p, plen)[11] == MaskedByte(p, plen, 11);
  }

  lemma PadAgree(s: seq<Byte>, p: Address)
    requires |s| <= 16 && s == p[..|s|]
    ensures Pad16(s)[..|s|] == p[..|s|]
  {
  }

  lemma SliceIs(m: seq<Byte>, at: nat, s: seq<Byte>)
    requires at + |s| <= |m| && m[at..at + |s|] == s
    ensures Slice(m, at, |s|) == s
  {
    forall k | 0 <= k < |s| ensures Slice(m, at, |s|)[k] == s[k] {
      assert m[at..at + |s|][k] == s[k] && At(m, at + k) == m[at + k];
    }
  }

  lemma PrefixV6(p: Address, plen: nat, omit: nat, m: seq<Byte>, at: nat, dp: Option<Address>, len: nat)
    requires plen <= 128 && Canonical(p, plen) && omit <= plen / 8
    requires omit > 0 ==> dp.Some? && !V4Mapped(dp.value) && dp.value[..omit] == p[..omit]
    requires at + PrefixBytes(plen) - omit <= |m| && len >= PrefixBytes(plen) - omit
    requires m[at..at + PrefixBytes(plen) - omit] == p[omit..PrefixBytes(plen)]
    ensures NetworkPrefix(2, plen, omit, m, at, dp, len) == (PrefixBytes(plen) - omit, p)
  {
    var pb := PrefixBytes(plen);
    var body := p[omit..pb];
    SliceIs(m, at, body);
    var head := if omit > 0 then dp.value[..omit] else [];
    assert head + body == p[..pb];
    PadAgree(p[..pb], p);
    MaskAgree(Pad16(p[..pb]), p, plen);
  }

  lemma PrefixV4(p: Address, plen: nat, m: seq<Byte>, at: nat, dp: Option<Address>, len: nat)
    requires 96 <= plen <= 128 && Canonical(p, plen) && V4Mapped(p)
    requires at + PrefixBytes(plen - 96) <= |m| && len >= PrefixBytes(plen - 96)
    requires m[at..at + PrefixBytes(plen - 96)] == p[12..12 + PrefixBytes(plen - 96)]
    ensures NetworkPrefix(1, plen - 96, 0, m, at, dp, len) == (PrefixBytes(plen - 96), p)
  {
    var pb := PrefixBytes(plen - 96);
    var body := p[12..12 + pb];
    SliceIs(m, at, body);
    assert V4PREFIX + body == p[..12 + pb];
    assert PrefixBytes(plen) == 12 + pb;
    PadAgree(p[..12 + pb], p);
    MaskAgree(Pad16(p[..12 + pb]), p, plen);
  }

  // ----- one message at a time ------------------------------------------------------

  /** A message with its declared length is handled on its own. */
  lemma DecodeStep(m: seq<Byte>, rest: seq<Byte>, d: Decoder, ipv4: bool)
    requires |m| >= 2 && m[0] != MESSAGE_PAD1 && m[1] == |m| - 2
    ensures var (d1, e1) := Handle(d, m, |m| - 2, ipv4);
            var (d2, e2) := Decode(rest, d1, ipv4);
            Decode(m + rest, d, ipv4) == (d2, e1 + e2)
  {
    hide Handle;
    assert (m + rest)[..|m|] == m && (m + rest)[|m|..] == rest;
  }

  lemma DecodeOne(m: seq<Byte>, d: Decoder, ipv4: bool)
    requires |m| >= 2 && m[0] != MESSAGE_PAD1 && m[1] == |m| - 2
    ensures WholeMessages(m) && Decode(m, d, ipv4) == Handle(d, m, |m| - 2, ipv4)
  {
    hide Handle;
    assert m + [] == m && m[|m|..] == [];
    DecodeStep(m, [], d, ipv4);
    var e := Handle(d, m, |m| - 2, ipv4).1;
    assert e + [] == e;
  }

  /** Messages that have been read do not matter for those that follow. */
  lemma {:induction false} DecodeAppend(a: seq<Byte>, m: seq<Byte>, d: Decoder, ipv4: bool)
    requires WholeMessages(a)
    requires |m| >= 2 && m[0] != MESSAGE_PAD1 && m[1] == |m| - 2
    ensures WholeMessages(a + m)
    ensures var (d1, e1) := Decode(a, d, ipv4);
            var (d2, e2) := Handle(d1, m, |m| - 2, ipv4);
            Decode(a + m, d, ipv4) == (d2, e1 + e2)
    decreases |a|
  {
    hide Handle;
    if a == [] {
      DecodeOne(m, d, ipv4);
      assert a + m == m;
      assert [] + Handle(d, m, |m| - 2, ipv4).1 == Handle(d, m, |m| - 2, ipv4).1;
    } else {
      var n: int := a[1];
      var first, more := a[..n + 2], a[n + 2..];
      assert a == first + more;
      AppendAssoc(first, more, m);
      var (d1, e1) := Handle(d, first, n, ipv4);
      DecodeStep(first, more, d, ipv4);
      DecodeStep(first, more + m, d, ipv4);
      DecodeAppend(more, m, d1, ipv4);
      assert (a + m)[n + 2..] == more + m;
      AppendAssoc(e1, Decode(more, d1, ipv4).1, Handle(Decode(more, d1, ipv4).0, m, |m| - 2, ipv4).1);
    }
  }

  /** A sequence of complete messages without padding. */
  predicate WholeMessages(b: seq<Byte>)
    decreases |b|
  {
    b == [] || (|b| >= 2 && b[0] != MESSAGE_PAD1 && b[1] + 2 <= |b| && WholeMessages(b[b[1] + 2..]))
  }

  // ----- what the decoder must know -------------------------------------------------

  function MappedAddress(v4: seq<Byte>): Address
    requires |v4| == 4
  {
    V4PREFIX + v4
  }

  predicate PrefixKnown(e: Encoder, d: Decoder) {
    e.havePrefix ==> d.haveV6 && d.v6Prefix == e.prefix && !V4Mapped(e.prefix)
  }

  /** Everything the encoder relies on is known to the decoder. */
  predicate InStep(e: Encoder, d: Decoder) {
    && |e.nh| == 4
    && (e.haveId ==> d.routerId == Some(e.id))
    && (e.haveNh ==> d.v4Nh == Some(MappedAddress(e.nh)))
    && PrefixKnown(e, d)
    && d.v6Nh == None
  }

  lemma NextHopRead(d: Decoder, ipv4: seq<Byte>, has4: bool)
    requires |ipv4| == 4
    ensures Handle(d, [MESSAGE_NH, 6, 1, 0] + ipv4, 6, has4) == (d.(v4Nh := Some(MappedAddress(ipv4))), [])
  {
    var m := [MESSAGE_NH, 6, 1, 0] + ipv4;
    SliceIs(m, 4, ipv4);
    assert Pad16(V4PREFIX + ipv4) == V4PREFIX + ipv4;
  }

  lemma RouterIdRead(d: Decoder, id: RouterId, has4: bool)
    ensures Handle(d, [MESSAGE_ROUTER_ID, 10, 0, 0] + id, 10, has4) == (d.(routerId := Some(id)), [])
  {
    var m := [MESSAGE_ROUTER_ID, 10, 0, 0] + id;
    SliceIs(m, 4, id);
  }

  // ----- the update message ---------------------------------------------------------

  lemma ShortRead(m: seq<Byte>, i: nat, v: nat)
    requires v <= 0xFFFF && i + 2 <= |m| && m[i..i + 2] == PutShort(v)
    ensures GetShort(m, i) == v
  {
    assert m[i] == m[i..i + 2][0] && m[i + 1] == m[i..i + 2][1];
  }

  lemma UpdateLayout(e: Encoder, u: Update)
    requires ValidUpdate(u)
    ensures var m := UpdateTlv(e, u);
            && |m| >= 12 && m[0] == MESSAGE_UPDATE && m[1] == |m| - 2
            && m[2] == (if IsV4(u) then 1 else 2) && m[3] == Flags(e, u)
            && m[4] == RealPlen(u) && m[5] == Omit(e, u)
            && m[6..8] == PutShort(u.interval) && m[8..10] == PutShort(u.seqno) && m[10..12] == PutShort(u.metric)
  {
    hide Omit, Flags, ChannelBytes;
    var b := UpdateBody(e, u);
    assert b[4..6] == PutShort(u.interval) && b[6..8] == PutShort(u.seqno) && b[8..10] == PutShort(u.metric);
    var m := UpdateTlv(e, u);
    assert m[6..8] == b[4..6] && m[8..10] == b[6..8] && m[10..12] == b[8..10];
  }

  lemma UpdatePrefixPart(e: Encoder, u: Update)
    requires ValidUpdate(u)
    ensures var m, n := UpdateTlv(e, u), PrefixBytes(RealPlen(u)) - Omit(e, u);
            && 12 + n <= |m| && m[12..12 + n] == RealPrefix(u)[Omit(e, u)..PrefixBytes(RealPlen(u))]
  {
    hide Flags;
    var n := PrefixBytes(RealPlen(u)) - Omit(e, u);
    var part := RealPrefix(u)[Omit(e, u)..PrefixBytes(RealPlen(u))];
    var b := UpdateBody(e, u);
    assert b[10..10 + n] == part;
    assert UpdateTlv(e, u)[12..12 + n] == b[10..10 + n];
  }

  lemma OmittedKnown(e: Encoder, u: Update)
    requires ValidUpdate(u) && Omit(e, u) > 0
    ensures e.havePrefix && e.prefix[..Omit(e, u)] == u.prefix[..Omit(e, u)]
  {
    assert e.prefix[..0] == u.prefix[..0];
  }

  /** The receiver reconstructs the prefix. */
  lemma PrefixRead(e: Encoder, u: Update, d: Decoder)
    requires ValidUpdate(u) && PrefixKnown(e, d)
    ensures var m := UpdateTlv(e, u);
            UpdatePrefix(d, m, |m| - 2) == (PrefixBytes(RealPlen(u)) - Omit(e, u), u.prefix)
  {
    hide UpdateTlv, UpdateBody, NetworkPrefix, Omit;
    var m, n := UpdateTlv(e, u), PrefixBytes(RealPlen(u)) - Omit(e, u);
    UpdateLayout(e, u);
    UpdatePrefixPart(e, u);
    OmitFits(e, u);
    if Omit(e, u) > 0 {
      OmittedKnown(e, u);
    }
    assert Flags(e, u) != 1;
    hide Flags;
    if IsV4(u) {
      assert Omit(e, u) == 0 by { V4OmitsNothing(e, u); }
      assert RealPrefix(u)[..PrefixBytes(u.plen - 96)] == u.prefix[12..12 + PrefixBytes(u.plen - 96)];
      PrefixV4(u.prefix, u.plen, m, 12, Some(d.v4Prefix), |m| - 12);
    } else {
      PrefixV6(u.prefix, u.plen, Omit(e, u), m, 12, Some(d.v6Prefix), |m| - 12);
    }
  }

  lemma V4OmitsNothing(e: Encoder, u: Update)
    requires ValidUpdate(u) && IsV4(u)
    ensures Omit(e, u) == 0
  {
  }

  lemma FlagBits(e: Encoder, u: Update)
    ensures Bit(Flags(e, u), 0x80) <==> SetsPrefix(e, u)
    ensures Bit(Flags(e, u), 0x40) <==> NewId(e, u) && IdInPrefix(u)
  {
  }

  /** The event an update stands for. */
  function EventOf(u: Update, ipv4: seq<Byte>): Event
    requires |ipv4| == 4
  {
    Route(u.id, u.prefix, u.plen, u.seqno, u.metric, u.interval,
          if IsV4(u) then Some(MappedAddress(ipv4)) else None)
  }

  /** What the decoder knows by the time it reads the update itself. */
  predicate Announced(e: Encoder, u: Update, ipv4: seq<Byte>, d: Decoder)
    requires |ipv4| == 4
  {
    && |e.nh| == 4
    && (!(NewId(e, u) && IdInPrefix(u)) ==> d.routerId == Some(u.id))
    && (IsV4(u) ==> d.v4Nh == Some(MappedAddress(ipv4)))
    && (!IsV4(u) && e.haveNh ==> d.v4Nh == Some(MappedAddress(e.nh)))
    && PrefixKnown(e, d)
    && d.v6Nh == None
  }

  lemma UpdateEffect(e: Encoder, u: Update, ipv4: seq<Byte>, d: Decoder, m: seq<Byte>)
    requires ValidUpdate(u) && |ipv4| == 4
    requires Announced(e, u, ipv4, d)
    requires At(m, 2) == (if IsV4(u) then 1 else 2) && At(m, 3) == Flags(e, u) && At(m, 4) == RealPlen(u)
    requires GetShort(m, 6) == u.interval && GetShort(m, 8) == u.seqno && GetShort(m, 10) == u.metric
    ensures var d1 := AfterUpdate(d, m, u.prefix);
            InStep(NextEncoder(e, u, ipv4), d1) && UpdateEvents(d1, m, u.prefix, true) == [EventOf(u, ipv4)]
  {
    FlagBits(e, u);
    if V4Mapped(u.prefix) {
      MappedMeansV4(u.prefix, u.plen);
    }
    hide Flags, Bit, V4Mapped;
  }

  /** Main step: an update is read back with all its fields, and both sides stay in step. */
  lemma UpdateRead(e: Encoder, u: Update, ipv4: seq<Byte>, d: Decoder)
    requires ValidUpdate(u) && |ipv4| == 4
    requires Announced(e, u, ipv4, d)
    ensures var m := UpdateTlv(e, u);
            var (d1, events) := Handle(d, m, |m| - 2, true);
            InStep(NextEncoder(e, u, ipv4), d1) && events == [EventOf(u, ipv4)]
  {
    hide UpdateTlv, UpdateBody, UpdatePrefix, Omit, Flags, InStep, AfterUpdate, UpdateEvents, NextEncoder;
    hide EventOf, GetShort, NetworkPrefix, HandleNextHop;
    var m := UpdateTlv(e, u);
    PrefixRead(e, u, d);
    UpdateLayout(e, u);
    ShortRead(m, 6, u.interval);
    ShortRead(m, 8, u.seqno);
    ShortRead(m, 10, u.metric);
    UpdateEffect(e, u, ipv4, d, m);
    assert PrefixBytes(RealPlen(u)) >= Omit(e, u) by { OmitFits(e, u); }
    assert Handle(d, m, |m| - 2, true) == HandleUpdate(d, m, |m| - 2, true);
  }

  lemma OmitFits(e: Encoder, u: Update)
    requires ValidUpdate(u)
    ensures Omit(e, u) <= PrefixBytes(RealPlen(u))
  {
  }

  // ----- a whole buffer -------------------------------------------------------------

  /** The buffer holds complete messages, and reading them brings the receiver in step. */
  predicate Consistent(e: Encoder, buf: seq<Byte>) {
    WholeMessages(buf) && InStep(e, Decode(buf, FRESH, true).0)
  }

  function Events(buf: seq<Byte>): seq<Event> {
    Decode(buf, FRESH, true).1
  }

  lemma AppendMessage(buf: seq<Byte>, m: seq<Byte>)
    requires WholeMessages(buf) && |m| >= 2 && m[0] != MESSAGE_PAD1 && m[1] == |m| - 2
    ensures WholeMessages(buf + m)
    ensures var (d, e) := Handle(Decode(buf, FRESH, true).0, m, |m| - 2, true);
            Decode(buf + m, FRESH, true) == (d, Events(buf) + e)
  {
    hide Handle;
    DecodeAppend(buf, m, FRESH, true);
  }

  lemma AppendNextHop(buf: seq<Byte>, e: Encoder, u: Update, ipv4: seq<Byte>)
    requires |ipv4| == 4 && Consistent(e, buf)
    ensures var b := buf + NextHopTlv(e, u, ipv4);
            var d, d1 := Decode(buf, FRESH, true).0, Decode(b, FRESH, true).0;
            && WholeMessages(b) && Events(b) == Events(buf)
            && d1 == d.(v4Nh := d1.v4Nh)
            && d1.v4Nh == (if IsV4(u) then Some(MappedAddress(ipv4)) else d.v4Nh)
  {
    hide Decode, Handle, WholeMessages;
    if IsV4(u) && (!e.haveNh || e.nh != ipv4) {
      AppendMessage(buf, [MESSAGE_NH, 6, 1, 0] + ipv4);
      NextHopRead(Decode(buf, FRESH, true).0, ipv4, true);
      assert Events(buf) + [] == Events(buf);
    } else {
      assert buf + [] == buf;
    }
  }

  lemma AppendRouterId(buf: seq<Byte>, e: Encoder, u: Update)
    requires WholeMessages(buf)
    requires e.haveId ==> Decode(buf, FRESH, true).0.routerId == Some(e.id)
    ensures var b := buf + RouterIdTlv(e, u);
            var d, d1 := Decode(buf, FRESH, true).0, Decode(b, FRESH, true).0;
            && WholeMessages(b) && Events(b) == Events(buf)
            && d1 == d.(routerId := d1.routerId)
            && (!(NewId(e, u) && IdInPrefix(u)) ==> d1.routerId == Some(u.id))
  {
    hide Decode, Handle, WholeMessages;
    if NewId(e, u) && !IdInPrefix(u) {
      AppendMessage(buf, [MESSAGE_ROUTER_ID, 10, 0, 0] + u.id);
      RouterIdRead(Decode(buf, FRESH, true).0, u.id, true);
      assert Events(buf) + [] == Events(buf);
    } else {
      assert buf + [] == buf;
    }
  }

  /** Everything written for one update is read back as that update. */
  lemma AppendUpdate(buf: seq<Byte>, e: Encoder, u: Update, ipv4: seq<Byte>)
    requires ValidUpdate(u) && |ipv4| == 4 && Consistent(e, buf)
    ensures var b := buf + UpdateBytes(e, u, ipv4);
            Consistent(NextEncoder(e, u, ipv4), b) && Events(b) == Events(buf) + [EventOf(u, ipv4)]
  {
    hide Decode, WholeMessages, Handle, UpdateTlv;
    var b1 := buf + NextHopTlv(e, u, ipv4);
    var b2 := b1 + RouterIdTlv(e, u);
    AppendNextHop(buf, e, u, ipv4);
    AppendRouterId(b1, e, u);
    UpdateLayout(e, u);
    AppendMessage(b2, UpdateTlv(e, u));
    UpdateRead(e, u, ipv4, Decode(b2, FRESH, true).0);
    AppendAssoc(buf, NextHopTlv(e, u, ipv4), RouterIdTlv(e, u));
    AppendAssoc(buf, NextHopTlv(e, u, ipv4) + RouterIdTlv(e, u), UpdateTlv(e, u));
  }

  /** A wildcard retraction is read as such, and costs the receiver its router id. */
  lemma AppendWildcard(buf: seq<Byte>, e: Encoder, seqno: nat)
    requires seqno <= 0xFFFF && Consistent(e, buf)
    ensures var b := buf + WildcardTlv(seqno);
            Consistent(e.(haveId := false), b) && Events(b) == Events(buf) + [RetractAll]
  {
    hide Decode, WholeMessages;
    var m := WildcardTlv(seqno);
    AppendMessage(buf, m);
    var d := Decode(buf, FRESH, true).0;
    assert At(m, 2) == 0 && At(m, 3) == 0x40 && At(m, 4) == 0 && At(m, 5) == 0;
    assert GetShort(m, 10) == 0xFFFF;
    assert !Bit(0x40, 0x80) && Bit(0x40, 0x40);
  }

  /** Messages without route information (a hello, say) change nothing for the updates. */
  lemma AppendOther(buf: seq<Byte>, e: Encoder, m: seq<Byte>)
    requires Consistent(e, buf) && |m| >= 2 && m[1] == |m| - 2
    requires m[0] !in {MESSAGE_PAD1, MESSAGE_ROUTER_ID, MESSAGE_NH, MESSAGE_UPDATE}
    ensures Consistent(e, buf + m) && Events(buf + m) == Events(buf)
  {
    hide Decode, WholeMessages;
    AppendMessage(buf, m);
    assert Events(buf) + [] == Events(buf);
  }

  lemma EmptyConsistent(e: Encoder)
    requires |e.nh| == 4
    ensures Consistent(Forget(e), []) && Events([]) == []
  {
  }
}
