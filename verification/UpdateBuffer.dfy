/** The bounded send buffer of an interface (start_message, ensure_space, flushbuf and
    really_send_update in babeld/message.c).

    Every flush starts a new packet and makes the sender forget what it told the receivers of the
    old one.  `Port` is the buffer as a value; the class below works on the bytes in place. */
module UpdateBuffer {
  import opened Wrappers
  import opened BabelMetric
  import opened Bytes
  import opened Seqs
  import opened UpdateCodec
  import opened UpdateRoundTrip

  // ----- the buffer as a value ------------------------------------------------------

  /** Packets handed to the socket, the bytes waiting, and what the sender remembers. */
  datatype Port = Port(sent: seq<seq<Byte>>, buf: seq<Byte>, enc: Encoder)

  function Packet(body: seq<Byte>): seq<Byte>
    requires |body| <= 0xFFFF
  {
    [42, 2] + PutShort(|body|) + body
  }

  function Flushed(p: Port): Port
    requires |p.buf| <= 0xFFFF
  {
    Port(if p.buf == [] then p.sent else p.sent + [Packet(p.buf)], [], Forget(p.enc))
  }

  function WithSpace(p: Port, bufsize: nat, space: nat): (q: Port)
    requires |p.buf| <= bufsize <= 0xFFFF
    ensures q.buf == [] || |q.buf| + space <= bufsize
  {
    if bufsize - |p.buf| < space then Flushed(p) else p
  }

  function V4Address(ipv4: Option<seq<Byte>>): seq<Byte> {
    if ipv4.Some? then ipv4.value else [0, 0, 0, 0]
  }

  function SendUpdate(p: Port, bufsize: nat, u: Update, ipv4: Option<seq<Byte>>): (q: Port)
    requires |p.buf| <= bufsize && 64 <= bufsize <= 0xFFFF
    requires ValidUpdate(u) && (ipv4.Some? ==> |ipv4.value| == 4)
    ensures |q.buf| <= bufsize
  {
    var w := WithSpace(p, bufsize, 60);
    if IsV4(u) && ipv4.None? then w
    else Port(w.sent, w.buf + UpdateBytes(w.enc, u, V4Address(ipv4)), NextEncoder(w.enc, u, V4Address(ipv4)))
  }

  function SendWildcard(p: Port, bufsize: nat, seqno: nat): (q: Port)
    requires |p.buf| <= bufsize && 64 <= bufsize <= 0xFFFF && seqno <= 0xFFFF
    ensures |q.buf| <= bufsize
  {
    var w := WithSpace(p, bufsize, 12);
    Port(w.sent, w.buf + WildcardTlv(seqno), w.enc.(haveId := false))
  }

  function SendOther(p: Port, bufsize: nat, m: seq<Byte>): (q: Port)
    requires |p.buf| <= bufsize && 64 <= bufsize <= 0xFFFF && |m| <= 64
    ensures |q.buf| <= bufsize
  {
    var w := WithSpace(p, bufsize, |m|);
    Port(w.sent, w.buf + m, w.enc)
  }

  // ----- the buffer in place --------------------------------------------------------

  class Interface {
    const bufsize: nat
    const sendbuf: array<Byte>
    var buffered: nat
    var haveId: bool
    var id: RouterId
    var haveNh: bool
    var nh: seq<Byte>
    var havePrefix: bool
    var prefix: Address
    var ipv4: Option<seq<Byte>>
    var sent: seq<seq<Byte>>

    ghost predicate Valid()
      reads this`buffered, this`nh, this`ipv4
    {
      && 64 <= bufsize <= 0xFFFF && sendbuf.Length == bufsize && buffered <= bufsize
      && |nh| == 4 && (ipv4.Some? ==> |ipv4.value| == 4)
    }

    ghost function Contents(): seq<Byte>
      requires Valid()
      reads this`buffered, this`nh, this`ipv4, sendbuf
    {
      sendbuf[..buffered]
    }

    function Enc(): Encoder
      reads this`haveId, this`id, this`haveNh, this`nh, this`havePrefix, this`prefix
    {
      Encoder(haveId, id, haveNh, nh, havePrefix, prefix)
    }

    ghost function AsPort(): Port
      requires Valid()
      reads this, sendbuf
    {
      Port(sent, Contents(), Enc())
    }

    constructor (bufsize: nat, ipv4: Option<seq<Byte>>)
      requires 64 <= bufsize <= 0xFFFF && (ipv4.Some? ==> |ipv4.value| == 4)
      ensures Valid() && fresh(sendbuf) && this.bufsize == bufsize && this.ipv4 == ipv4
      ensures Contents() == [] && sent == [] && Enc() == Forget(Enc())
    {
      this.bufsize, this.ipv4 := bufsize, ipv4;
      sendbuf := new Byte[bufsize];
      buffered, sent := 0, [];
      haveId, haveNh, havePrefix := false, false, false;
      id, nh, prefix := [0, 0, 0, 0, 0, 0, 0, 0], [0, 0, 0, 0], ZEROES;
    }

    /** flushbuf: sends what is there and forgets. */
    method FlushBuf()
      requires Valid()
      modifies this`buffered, this`sent, this`haveId, this`haveNh, this`havePrefix
      ensures Valid() && AsPort() == Flushed(old(AsPort()))
    {
      if buffered > 0 {
        sent := sent + [Packet(sendbuf[..buffered])];
      }
      buffered := 0;
      haveId, haveNh, havePrefix := false, false, false;
    }

    /** ensure_space. */
    method EnsureSpace(space: nat)
      requires Valid()
      modifies this`buffered, this`sent, this`haveId, this`haveNh, this`havePrefix
      ensures Valid() && AsPort() == WithSpace(old(AsPort()), bufsize, space)
    {
      if bufsize - buffered < space {
        FlushBuf();
      }
    }

    method AccumulateByte(value: Byte)
      requires Valid() && buffered < bufsize
      modifies this`buffered, sendbuf
      ensures Valid() && Contents() == old(Contents()) + [value] && buffered == old(buffered) + 1
    {
      sendbuf[buffered] := value;
      buffered := buffered + 1;
    }

    method AccumulateShort(value: nat)
      requires Valid() && value <= 0xFFFF && buffered + 2 <= bufsize
      modifies this`buffered, sendbuf
      ensures Valid() && Contents() == old(Contents()) + PutShort(value) && buffered == old(buffered) + 2
    {
      sendbuf[buffered] := value / 256;
      sendbuf[buffered + 1] := value % 256;
      buffered := buffered + 2;
    }

    method AccumulateBytes(value: seq<Byte>)
      requires Valid() && buffered + |value| <= bufsize
      modifies this`buffered, sendbuf
      ensures Valid() && Contents() == old(Contents()) + value && buffered == old(buffered) + |value|
    {
      forall i | 0 <= i < |value| {
        sendbuf[buffered + i] := value[i];
      }
      buffered := buffered + |value|;
      assert forall i :: 0 <= i < |value| ==> sendbuf[..buffered][buffered - |value| + i] == value[i];
    }

    /** start_message: flushes when the message would not fit, then writes its header. */
    method StartMessage(kind: Byte, len: Byte)
      requires Valid() && len <= 62
      modifies this`buffered, this`sent, this`haveId, this`haveNh, this`havePrefix, sendbuf
      ensures Valid()
      ensures var w := WithSpace(old(AsPort()), bufsize, len + 2);
              AsPort() == Port(w.sent, w.buf + [kind, len], w.enc) && buffered + len <= bufsize
      ensures old(buffered) + len + 2 <= bufsize ==>
              && sent == old(sent) && Contents() == old(Contents()) + [kind, len] && Enc() == old(Enc())
              && buffered == old(buffered) + 2
    {
      EnsureSpace(len + 2);
      sendbuf[buffered] := kind;
      buffered := buffered + 1;
      sendbuf[buffered] := len;
      buffered := buffered + 1;
    }

    /** The loop that looks for omitted bytes. */
    method FindOmit(p: Address, limit: nat) returns (omit: nat)
      requires limit <= 16
      ensures omit == CommonBytes(prefix, p, 0, limit)
    {
      omit := 0;
      while omit < limit && prefix[omit] == p[omit]
        invariant omit <= limit
        invariant CommonBytes(prefix, p, omit, limit) == CommonBytes(prefix, p, 0, limit)
      {
        omit := omit + 1;
      }
    }

    /** The next hop message of an IPv4 update, unless the receivers already know it. */
    method WriteNextHop(u: Update)
      requires Valid() && ipv4.Some? && IsV4(u) && buffered + 8 <= bufsize
      modifies this`buffered, this`sent, this`haveId, this`haveNh, this`havePrefix, this`nh, sendbuf
      ensures Valid() && sent == old(sent)
      ensures Contents() == old(Contents()) + NextHopTlv(old(Enc()), u, ipv4.value)
      ensures Enc() == old(Enc()).(haveNh := true, nh := ipv4.value)
      ensures buffered <= old(buffered) + 8
    {
      if !haveNh || nh != ipv4.value {
        StartMessage(MESSAGE_NH, 6);
        AccumulateByte(1);
        AccumulateByte(0);
        AccumulateBytes(ipv4.value);
        assert Contents() == old(Contents()) + ([MESSAGE_NH, 6, 1, 0] + ipv4.value);
        nh := ipv4.value;
        haveNh := true;
      } else {
        assert Contents() + [] == Contents();
      }
    }

    /** The router id, unless known or recoverable from the prefix. */
    method WriteRouterId(u: Update)
      requires Valid() && ValidUpdate(u) && buffered + 12 <= bufsize
      modifies this`buffered, this`sent, this`haveId, this`haveNh, this`havePrefix, this`id, sendbuf
      ensures Valid() && sent == old(sent)
      ensures Contents() == old(Contents()) + RouterIdTlv(old(Enc()), u)
      ensures Enc() == old(Enc()).(haveId := true, id := u.id)
      ensures buffered <= old(buffered) + 12
    {
      if !haveId || id != u.id {
        if !IdInPrefix(u) {
          StartMessage(MESSAGE_ROUTER_ID, 10);
          AccumulateShort(0);
          AccumulateBytes(u.id);
          assert Contents() == old(Contents()) + ([MESSAGE_ROUTER_ID, 10, 0, 0] + u.id);
        } else {
          assert Contents() + [] == Contents();
        }
        id := u.id;
        haveId := true;
      } else {
        assert Contents() + [] == Contents();
      }
    }

    method WriteUpdateFlags(ae: Byte, flags: Byte, plen: Byte, omit: Byte)
      requires Valid() && buffered + 4 <= bufsize
      modifies this`buffered, sendbuf
      ensures Valid() && Contents() == old(Contents()) + [ae, flags, plen, omit] && buffered == old(buffered) + 4
    {
      hide Contents;
      AccumulateByte(ae);
      AccumulateByte(flags);
      AccumulateByte(plen);
      AccumulateByte(omit);
    }

    method WriteUpdateNumbers(u: Update)
      requires Valid() && ValidUpdate(u) && buffered + 6 <= bufsize
      modifies this`buffered, sendbuf
      ensures Valid() && Contents() == old(Contents()) + UpdateNumbers(u) && buffered == old(buffered) + 6
    {
      hide Contents, PutShort;
      AccumulateShort(u.interval);
      AccumulateShort(u.seqno);
      AccumulateShort(u.metric);
      AppendAssoc(old(Contents()), PutShort(u.interval), PutShort(u.seqno));
      AppendAssoc(old(Contents()), PutShort(u.interval) + PutShort(u.seqno), PutShort(u.metric));
    }

    /** The fixed part of an update message. */
    method WriteUpdateHead(ae: Byte, flags: Byte, plen: Byte, omit: Byte, u: Update, len: Byte)
      requires Valid() && ValidUpdate(u) && 10 <= len <= 62 && buffered + len + 2 <= bufsize
      modifies this`buffered, this`sent, this`haveId, this`haveNh, this`havePrefix, sendbuf
      ensures Valid() && sent == old(sent) && Enc() == old(Enc())
      ensures Contents() == old(Contents()) + UpdateHead(ae, flags, plen, omit, u, len) && buffered == old(buffered) + 12
    {
      hide Contents, Enc, WithSpace, Flushed, UpdateNumbers;
      StartMessage(MESSAGE_UPDATE, len);
      WriteUpdateFlags(ae, flags, plen, omit);
      WriteUpdateNumbers(u);
      AppendAssoc(old(Contents()), [MESSAGE_UPDATE, len], [ae, flags, plen, omit]);
      AppendAssoc(old(Contents()), [MESSAGE_UPDATE, len] + [ae, flags, plen, omit], UpdateNumbers(u));
    }

    /** A whole update message, from its parts. */
    method WriteUpdateParts(ae: Byte, flags: Byte, plen: Byte, omit: Byte, u: Update, part: seq<Byte>, channels: seq<Byte>)
      requires Valid() && ValidUpdate(u) && |part| + |channels| <= 26 && buffered + 12 + |part| + |channels| <= bufsize
      modifies this`buffered, this`sent, this`haveId, this`haveNh, this`havePrefix, sendbuf
      ensures Valid() && sent == old(sent) && Enc() == old(Enc())
      ensures Contents() == old(Contents())
                + (UpdateHead(ae, flags, plen, omit, u, 10 + |part| + |channels|) + part + channels)
    {
      hide Contents, Enc, UpdateHead;
      ghost var head := UpdateHead(ae, flags, plen, omit, u, 10 + |part| + |channels|);
      WriteUpdateHead(ae, flags, plen, omit, u, 10 + |part| + |channels|);
      AccumulateBytes(part);
      AccumulateBytes(channels);
      AppendAssoc(old(Contents()), head, part);
      AppendAssoc(old(Contents()), head + part, channels);
    }

    /** The update itself; `e` is what was remembered when omission and flags were decided. */
    method WriteUpdate(u: Update, flags: Byte, omit: Byte, ghost e: Encoder)
      requires Valid() && ValidUpdate(u) && flags == Flags(e, u) && omit == Omit(e, u)
      requires buffered + |UpdateTlv(e, u)| <= bufsize
      modifies this`buffered, this`sent, this`haveId, this`haveNh, this`havePrefix, sendbuf
      ensures Valid() && sent == old(sent) && Enc() == old(Enc())
      ensures Contents() == old(Contents()) + UpdateTlv(e, u)
    {
      hide UpdateTlv, UpdateHead, Contents, Enc, ChannelBytes, Omit, Flags;
      UpdateTlvParts(e, u);
      OmitFits(e, u);
      var part := RealPrefix(u)[omit..PrefixBytes(RealPlen(u))];
      WriteUpdateParts(if IsV4(u) then 1 else 2, flags, RealPlen(u), omit, u, part, ChannelBytes(u));
    }

    /** How many bytes of the prefix to leave out, and which flags to set. */
    method Decide(u: Update) returns (omit: Byte, flags: Byte)
      requires Valid() && ValidUpdate(u)
      ensures omit == Omit(Enc(), u) && flags == Flags(Enc(), u)
    {
      omit, flags := 0, 0;
      if !IsV4(u) {
        if havePrefix {
          omit := FindOmit(u.prefix, u.plen / 8);
        }
        if !havePrefix || u.plen >= 48 {
          flags := flags + 0x80;
        }
      }
      if (!haveId || id != u.id) && IdInPrefix(u) {
        flags := flags + 0x40;
      }
    }

    /** The messages that come before the update itself. */
    method WritePreamble(u: Update)
      requires Valid() && ValidUpdate(u) && (IsV4(u) ==> ipv4.Some?) && buffered + 20 <= bufsize
      modifies this`buffered, this`sent, this`haveId, this`id, this`haveNh, this`nh, this`havePrefix, sendbuf
      ensures Valid() && sent == old(sent) && buffered <= old(buffered) + 20
      ensures var e, ip := old(Enc()), V4Address(ipv4);
              && Contents() == old(Contents()) + NextHopTlv(e, u, ip) + RouterIdTlv(e, u)
              && Enc() == (if IsV4(u) then e.(haveNh := true, nh := ip) else e).(haveId := true, id := u.id)
    {
      ghost var start := Contents();
      hide Contents;
      if IsV4(u) {
        WriteNextHop(u);
      } else {
        assert start + [] == start;
      }
      WriteRouterId(u);
    }

    /** Everything after the space check, for an update that can be sent on this interface. */
    method WriteAll(u: Update)
      requires Valid() && ValidUpdate(u) && (IsV4(u) ==> ipv4.Some?) && buffered + 60 <= bufsize
      modifies this`buffered, this`sent, this`haveId, this`id, this`haveNh, this`nh, this`havePrefix, this`prefix, sendbuf
      ensures Valid() && sent == old(sent)
      ensures Contents() == old(Contents()) + UpdateBytes(old(Enc()), u, V4Address(ipv4))
      ensures Enc() == NextEncoder(old(Enc()), u, V4Address(ipv4))
    {
      ghost var e, start, ip := Enc(), Contents(), V4Address(ipv4);
      var omit, flags := Decide(u);
      hide Omit, Flags, UpdateTlv, Contents, NextHopTlv, RouterIdTlv;
      WritePreamble(u);
      UpdateTlvParts(e, u);
      WriteUpdate(u, flags, omit, e);
      AppendAssoc(start, NextHopTlv(e, u, ip), RouterIdTlv(e, u));
      AppendAssoc(start, NextHopTlv(e, u, ip) + RouterIdTlv(e, u), UpdateTlv(e, u));
      FlagBits(e, u);
      if Bit(flags, 0x80) {
        prefix := u.prefix;
        havePrefix := true;
      }
    }

    /** really_send_update: `up` is the state of the interface, `addMetric` the answer of the
        output filter.  Once space is ensured no flush happens before the update is complete. */
    method ReallySendUpdate(up: bool, addMetric: nat, u: Update)
      requires Valid() && ValidUpdate(u)
      modifies this`buffered, this`sent, this`haveId, this`id, this`haveNh, this`nh, this`havePrefix, this`prefix, sendbuf
      ensures Valid()
      ensures AsPort() == if up && addMetric < INFINITY
                          then SendUpdate(old(AsPort()), bufsize, Filtered(u, addMetric), ipv4) else old(AsPort())
    {
      if !up || addMetric >= INFINITY {
        return;
      }
      EnsureSpace(60);
      if IsV4(u) && ipv4.None? {
        return;
      }
      hide UpdateBytes, NextEncoder, Contents, Enc;
      ContentsLength();
      WriteAll(Filtered(u, addMetric));
    }

    lemma ContentsLength()
      requires Valid()
      ensures |Contents()| == buffered
    {
    }

    /** send_wildcard_retraction. */
    method SendWildcardRetraction(seqno: nat)
      requires Valid() && seqno <= 0xFFFF
      modifies this`buffered, this`sent, this`haveId, this`haveNh, this`havePrefix, sendbuf
      ensures Valid() && AsPort() == SendWildcard(old(AsPort()), bufsize, seqno)
    {
      ghost var w := WithSpace(AsPort(), bufsize, 12);
      StartMessage(MESSAGE_UPDATE, 10);
      assert Contents() == w.buf + [MESSAGE_UPDATE, 10] && Enc() == w.enc && sent == w.sent;
      WriteWildcardBody(seqno);
      AppendAssoc(w.buf, [MESSAGE_UPDATE, 10], WildcardTlv(seqno)[2..]);
      assert [MESSAGE_UPDATE, 10] + WildcardTlv(seqno)[2..] == WildcardTlv(seqno);
      hide WithSpace, WildcardTlv, Contents;
      haveId := false;
    }

    method WriteWildcardBody(seqno: nat)
      requires Valid() && seqno <= 0xFFFF && buffered + 10 <= bufsize
      modifies this`buffered, sendbuf
      ensures Valid() && Contents() == old(Contents()) + WildcardTlv(seqno)[2..]
    {
      hide Contents;
      WriteUpdateFlags(0, 0x40, 0, 0);
      AccumulateShort(0xFFFF);
      AccumulateShort(seqno);
      AccumulateShort(0xFFFF);
      assert WildcardTlv(seqno)[2..] == [0, 0x40, 0, 0] + [0xFF, 0xFF] + PutShort(seqno) + [0xFF, 0xFF];
    }
  }

  function Filtered(u: Update, addMetric: nat): Update {
    u.(metric := if u.metric + addMetric < INFINITY then u.metric + addMetric else INFINITY)
  }

  function UpdateNumbers(u: Update): (h: seq<Byte>)
    requires ValidUpdate(u)
    ensures |h| == 6
  {
    PutShort(u.interval) + PutShort(u.seqno) + PutShort(u.metric)
  }

  function UpdateHead(ae: Byte, flags: Byte, plen: Byte, omit: Byte, u: Update, len: Byte): (h: seq<Byte>)
    requires ValidUpdate(u)
    ensures |h| == 12
  {
    [MESSAGE_UPDATE, len] + [ae, flags, plen, omit] + UpdateNumbers(u)
  }

  lemma UpdateTlvParts(e: Encoder, u: Update)
    requires ValidUpdate(u)
    ensures var part := RealPrefix(u)[Omit(e, u)..PrefixBytes(RealPlen(u))];
            var len := 10 + |part| + |ChannelBytes(u)|;
            && len <= 36 && |UpdateTlv(e, u)| == len + 2
            && UpdateTlv(e, u) == UpdateHead(if IsV4(u) then 1 else 2, Flags(e, u), RealPlen(u), Omit(e, u), u, len)
                                  + part + ChannelBytes(u)
  {
    hide Flags, Omit;
    OmitFits(e, u);
  }

  // ----- whole runs -----------------------------------------------------------------

  /** What can happen at a port: an update (with the IPv4 address the interface has then), a
      wildcard retraction, a message without route information, or a flush by the timer. */
  datatype Command =
    | SendOne(u: Update, ipv4: Option<seq<Byte>>)
    | Wildcard(seqno: nat)
    | Message(m: seq<Byte>)
    | Flush

  predicate ValidCommand(c: Command) {
    match c
    case SendOne(u, ipv4) => ValidUpdate(u) && (ipv4.Some? ==> |ipv4.value| == 4)
    case Wildcard(seqno) => seqno <= 0xFFFF
    case Message(m) =>
      && 2 <= |m| <= 64 && m[1] == |m| - 2
      && m[0] !in {MESSAGE_PAD1, MESSAGE_ROUTER_ID, MESSAGE_NH, MESSAGE_UPDATE}
    case Flush => true
  }

  predicate ValidCommands(cs: seq<Command>) {
    forall i :: 0 <= i < |cs| ==> ValidCommand(cs[i])
  }

  function Do(p: Port, bufsize: nat, c: Command): (q: Port)
    requires |p.buf| <= bufsize && 64 <= bufsize <= 0xFFFF && ValidCommand(c)
    ensures |q.buf| <= bufsize
  {
    match c
    case SendOne(u, ipv4) => SendUpdate(p, bufsize, u, ipv4)
    case Wildcard(seqno) => SendWildcard(p, bufsize, seqno)
    case Message(m) => SendOther(p, bufsize, m)
    case Flush => Flushed(p)
  }

  function DoAll(p: Port, bufsize: nat, cs: seq<Command>): (q: Port)
    requires |p.buf| <= bufsize && 64 <= bufsize <= 0xFFFF && ValidCommands(cs)
    ensures |q.buf| <= bufsize
    decreases cs
  {
    if cs == [] then p else DoAll(Do(p, bufsize, cs[0]), bufsize, cs[1..])
  }

  function Expected(c: Command): seq<Event>
    requires ValidCommand(c)
  {
    match c
    case SendOne(u, ipv4) => if IsV4(u) && ipv4.None? then [] else [EventOf(u, V4Address(ipv4))]
    case Wildcard(_) => [RetractAll]
    case Message(_) => []
    case Flush => []
  }

  function ExpectedAll(cs: seq<Command>): seq<Event>
    requires ValidCommands(cs)
  {
    if cs == [] then [] else Expected(cs[0]) + ExpectedAll(cs[1..])
  }

  /** What receivers with IPv4 have read once every packet, and the one being filled, arrived. */
  function ReadPackets(sent: seq<seq<Byte>>): seq<Event> {
    if sent == [] then [] else ReadPackets(sent[..|sent| - 1]) + ParsePacket(sent[|sent| - 1], true)
  }

  function ReadAll(p: Port): seq<Event> {
    ReadPackets(p.sent) + Events(p.buf)
  }

  lemma PacketRead(body: seq<Byte>)
    requires |body| <= 0xFFFF
    ensures ParsePacket(Packet(body), true) == Events(body)
  {
    hide Decode;
    var k := Packet(body);
    ShortRead(k, 2, |body|);
    assert k[4..4 + |body|] == body;
  }

  lemma FlushReads(p: Port)
    requires |p.buf| <= 0xFFFF && Consistent(p.enc, p.buf)
    ensures Consistent(Flushed(p).enc, []) && ReadAll(Flushed(p)) == ReadAll(p)
  {
    hide Decode, ParsePacket;
    EmptyConsistent(p.enc);
    if p.buf != [] {
      PacketRead(p.buf);
      var q := Flushed(p);
      assert q.sent[..|q.sent| - 1] == p.sent;
    }
    assert ReadPackets(Flushed(p).sent) + [] == ReadPackets(Flushed(p).sent);
  }

  lemma SpaceReads(p: Port, bufsize: nat, space: nat)
    requires |p.buf| <= bufsize <= 0xFFFF && Consistent(p.enc, p.buf)
    ensures var w := WithSpace(p, bufsize, space); Consistent(w.enc, w.buf) && ReadAll(w) == ReadAll(p)
  {
    hide Consistent, ReadAll, Flushed;
    FlushReads(p);
    FlushEmpties(p);
  }

  lemma FlushEmpties(p: Port)
    requires |p.buf| <= 0xFFFF
    ensures Flushed(p).buf == []
  {
  }

  lemma Extended(p: Port, buf: seq<Byte>, enc: Encoder, more: seq<Event>)
    requires Events(buf) == Events(p.buf) + more
    ensures ReadAll(Port(p.sent, buf, enc)) == ReadAll(p) + more
  {
    hide Events, ReadPackets;
    AppendAssoc(ReadPackets(p.sent), Events(p.buf), more);
  }

  lemma DoReads(p: Port, bufsize: nat, c: Command)
    requires |p.buf| <= bufsize && 64 <= bufsize <= 0xFFFF && ValidCommand(c) && Consistent(p.enc, p.buf)
    ensures var q := Do(p, bufsize, c);
            Consistent(q.enc, q.buf) && ReadAll(q) == ReadAll(p) + Expected(c)
  {
    hide ReadAll, Consistent, Events, WithSpace, UpdateBytes, NextEncoder, WildcardTlv, EventOf;
    assert ReadAll(p) + [] == ReadAll(p);
    match c {
      case SendOne(u, ipv4) =>
        var w, ip := WithSpace(p, bufsize, 60), V4Address(ipv4);
        SpaceReads(p, bufsize, 60);
        if !(IsV4(u) && ipv4.None?) {
          AppendUpdate(w.buf, w.enc, u, ip);
          Extended(w, w.buf + UpdateBytes(w.enc, u, ip), NextEncoder(w.enc, u, ip), [EventOf(u, ip)]);
        }
      case Wildcard(seqno) =>
        var w := WithSpace(p, bufsize, 12);
        SpaceReads(p, bufsize, 12);
        AppendWildcard(w.buf, w.enc, seqno);
        Extended(w, w.buf + WildcardTlv(seqno), w.enc.(haveId := false), [RetractAll]);
      case Message(m) =>
        var w := WithSpace(p, bufsize, |m|);
        SpaceReads(p, bufsize, |m|);
        AppendOther(w.buf, w.enc, m);
        assert Events(w.buf) + [] == Events(w.buf);
        Extended(w, w.buf + m, w.enc, []);
        assert ReadAll(w) + [] == ReadAll(w);
      case Flush =>
        FlushReads(p);
        FlushEmpties(p);
    }
  }

  /** Main result: whatever is sent, in whatever order and however it falls into packets, the
      receivers read exactly the updates that were sent, with all their fields. */
  lemma {:induction false} RunReads(p: Port, bufsize: nat, cs: seq<Command>)
    requires |p.buf| <= bufsize && 64 <= bufsize <= 0xFFFF && ValidCommands(cs) && Consistent(p.enc, p.buf)
    ensures var q := DoAll(p, bufsize, cs);
            Consistent(q.enc, q.buf) && ReadAll(q) == ReadAll(p) + ExpectedAll(cs)
    decreases cs
  {
    hide ReadAll, Consistent, Do, Expected;
    if cs == [] {
      assert ReadAll(p) + [] == ReadAll(p);
    } else {
      DoReads(p, bufsize, cs[0]);
      RunReads(Do(p, bufsize, cs[0]), bufsize, cs[1..]);
      AppendAssoc(ReadAll(p), Expected(cs[0]), ExpectedAll(cs[1..]));
    }
  }
}
