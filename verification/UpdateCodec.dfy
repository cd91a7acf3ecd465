/** The compressed update format of babeld (really_send_update and parse_packet in
    babeld/message.c; sections 4.4.7 to 4.4.9 of RFC 6126).

    Sender and receiver both remember the last router id, the last IPv4 next hop and a default
    prefix of the packet; an update leaves out what the receiver can fill in.  This file holds
    the two sides as functions; UpdateBuffer has the bounded buffer of the sender. */
module UpdateCodec {
  import opened Wrappers
  import opened BabelMetric
  import opened Bytes
  import opened Seqs

  const ZEROES: seq<Byte> := [0, 0, 0, 0, 0, 0, 0, 0, 0, 0, 0, 0, 0, 0, 0, 0]

  type RouterId = a: seq<Byte> | |a| == 8 witness [0, 0, 0, 0, 0, 0, 0, 0]

  const MESSAGE_PAD1: Byte := 0
  const MESSAGE_ROUTER_ID: Byte := 6
  const MESSAGE_NH: Byte := 7
  const MESSAGE_UPDATE: Byte := 8

  // ----- prefixes (babeld/util.c) ---------------------------------------------------

  /** b & (0xFF << (8 - k)) */
  function HighBits(b: Byte, k: nat): Byte
    requires 0 < k < 8
  {
    var unit := [256, 128, 64, 32, 16, 8, 4, 2][k];
    b - b % unit
  }

  function MaskedByte(p: Address, plen: nat, i: nat): Byte
    requires i < 16
  {
    if i < plen / 8 then p[i]
    else if i == plen / 8 && plen % 8 != 0 then HighBits(p[i], plen % 8)
    else 0
  }

  function MaskPrefix(p: Address, plen: nat): Address {
    if plen >= 128 then p else seq(16, i requires 0 <= i < 16 => MaskedByte(p, plen, i))
  }

  predicate Canonical(p: Address, plen: nat) {
    MaskPrefix(p, plen) == p
  }

  function PrefixBytes(plen: nat): nat {
    (plen + 7) / 8
  }

  // ----- the decoder ----------------------------------------------------------------

  function At(m: seq<Byte>, i: nat): Byte {
    if i < |m| then m[i] else 0
  }

  function GetShort(m: seq<Byte>, i: nat): nat {
    var hi: int, lo: int := At(m, i), At(m, i + 1);
    hi * 256 + lo
  }

  function Bit(flags: Byte, unit: nat): bool
    requires unit > 0
  {
    flags / unit % 2 == 1
  }

  /** The bytes of a message from `i`, padded to `n` bytes. */
  function Slice(m: seq<Byte>, i: nat, n: nat): (s: seq<Byte>)
    ensures |s| == n
  {
    seq<Byte>(n, k requires 0 <= k < n => At(m, i + k))
  }

  function Pad16(s: seq<Byte>): Address {
    if |s| <= 16 then s + ZEROES[..16 - |s|] else s[..16]
  }

  /** `network_prefix`: the number of bytes parsed (negative on failure) and the prefix.  A
      negative `plen` stands for a whole address. */
  function NetworkPrefix(ae: Byte, plen: int, omitted: nat, m: seq<Byte>, at: nat, dp: Option<Address>, len: nat)
    : (int, Address)
  {
    var fail := (-1, ZEROES);
    var pb := if plen >= 0 then PrefixBytes(plen) else if ae == 1 then 4 else 16;
    var bits := if plen < 0 then 128 else if ae == 1 then plen + 96 else plen;
    if pb > 16 then fail
    else if ae == 0 then (0, MaskPrefix(ZEROES, bits))
    else if ae == 1 then
      if omitted > 4 || pb > 4 || (pb > omitted && len < pb - omitted) then fail
      else if omitted > 0 && (dp.None? || !V4Mapped(dp.value)) then fail
      else
        var head := if omitted > 0 then dp.value[..12 + omitted] else V4PREFIX;
        var body := if pb > omitted then Slice(m, at, pb - omitted) else [];
        (pb - omitted, MaskPrefix(Pad16(head + body), bits))
    else if ae == 2 then
      if omitted > 16 || (pb > omitted && len < pb - omitted) then fail
      else if omitted > 0 && (dp.None? || V4Mapped(dp.value)) then fail
      else
        var head := if omitted > 0 then dp.value[..omitted] else [];
        var body := if pb > omitted then Slice(m, at, pb - omitted) else [];
        (pb - omitted, MaskPrefix(Pad16(head + body), bits))
    else if ae == 3 then
      if pb > 8 && len < pb - 8 then fail
      else
        var body := if pb > 8 then Slice(m, at, pb - 8) else [];
        (pb - 8, MaskPrefix(Pad16([0xfe, 0x80, 0, 0, 0, 0, 0, 0] + body), bits))
    else fail
  }

  /** What the receiver remembers within a packet.  A prefix that was never set reads as zeroes. */
  datatype Decoder = Decoder(
    routerId: Option<RouterId>,
    haveV4: bool, v4Prefix: Address,
    haveV6: bool, v6Prefix: Address,
    v4Nh: Option<Address>, v6Nh: Option<Address>)

  const FRESH := Decoder(None, false, ZEROES, false, ZEROES, None, None)

  /** What an update calls for: a route update, or the retraction of all routes of the sender.
      Without a next hop the sender itself is meant. */
  datatype Event =
    | Route(id: RouterId, prefix: Address, plen: nat, seqno: nat, metric: nat, interval: nat, nexthop: Option<Address>)
    | RetractAll

  function ForgetPrefixes(d: Decoder): Decoder {
    d.(haveV4 := false, haveV6 := false)
  }

  function HandleRouterId(d: Decoder, m: seq<Byte>, len: nat): Decoder {
    if len < 10 then d.(routerId := None) else d.(routerId := Some(Slice(m, 4, 8)))
  }

  function HandleNextHop(d: Decoder, m: seq<Byte>, len: nat): Decoder {
    if len < 2 then d.(v4Nh := None, v6Nh := None)
    else
      var (rc, nh) := NetworkPrefix(At(m, 2), -1, 0, m, 4, None, len - 2);
      if rc < 0 then d.(v4Nh := None, v6Nh := None)
      else if At(m, 2) == 1 then d.(v4Nh := Some(nh))
      else d.(v6Nh := Some(nh))
  }

  function UpdatePrefix(d: Decoder, m: seq<Byte>, len: nat): (int, Address)
    requires len >= 10
  {
    var have := if At(m, 3) == 1 then d.haveV4 else d.haveV6;
    if At(m, 5) == 0 || have then
      NetworkPrefix(At(m, 2), At(m, 4), At(m, 5), m, 12, Some(if At(m, 2) == 1 then d.v4Prefix else d.v6Prefix), len - 10)
    else (-1, ZEROES)
  }

  /** The decoder after the default prefix and the router id have been taken from an update. */
  function AfterUpdate(d: Decoder, m: seq<Byte>, prefix: Address): Decoder {
    var ae, flags := At(m, 2), At(m, 3);
    var d1 := if !Bit(flags, 0x80) then d
              else if ae == 1 then d.(v4Prefix := prefix, haveV4 := true)
              else d.(v6Prefix := prefix, haveV6 := true);
    if !Bit(flags, 0x40) then d1
    else if ae == 1 then d1.(routerId := Some([0, 0, 0, 0] + prefix[12..]))
    else d1.(routerId := Some(prefix[8..]))
  }

  function UpdateEvents(d: Decoder, m: seq<Byte>, prefix: Address, ipv4: bool): seq<Event> {
    var ae := At(m, 2);
    var interval, seqno, metric := GetShort(m, 6), GetShort(m, 8), GetShort(m, 10);
    var plen: int := At(m, 4);
    if ae == 0 then if metric < 0xFFFF then [] else [RetractAll]
    else if d.routerId.None? then []
    else if ae == 1 then
      if d.v4Nh.None? || !ipv4 then []
      else [Route(d.routerId.value, prefix, (plen + 96) % 256, seqno, metric, interval, d.v4Nh)]
    else [Route(d.routerId.value, prefix, plen, seqno, metric, interval, d.v6Nh)]
  }

  function HandleUpdate(d: Decoder, m: seq<Byte>, len: nat, ipv4: bool): (Decoder, seq<Event>) {
    if len < 10 then
      (if len < 2 || Bit(At(m, 3), 0x80) then ForgetPrefixes(d) else d, [])
    else
      var (rc, prefix) := UpdatePrefix(d, m, len);
      if rc < 0 then (if Bit(At(m, 3), 0x80) then ForgetPrefixes(d) else d, [])
      else
        var d1 := AfterUpdate(d, m, prefix);
        (d1, UpdateEvents(d1, m, prefix, ipv4))
  }

  /** One message; those that carry no route information leave the decoder alone. */
  function Handle(d: Decoder, m: seq<Byte>, len: nat, ipv4: bool): (Decoder, seq<Event>) {
    if At(m, 0) == MESSAGE_ROUTER_ID then (HandleRouterId(d, m, len), [])
    else if At(m, 0) == MESSAGE_NH then (HandleNextHop(d, m, len), [])
    else if At(m, 0) == MESSAGE_UPDATE then HandleUpdate(d, m, len, ipv4)
    else (d, [])
  }

  /** The loop of `parse_packet` over the rest of the body.  A message is dropped only when its
      body, without the two header bytes, exceeds what is left. */
  function Decode(rest: seq<Byte>, d: Decoder, ipv4: bool): (Decoder, seq<Event>)
    decreases |rest|
  {
    if rest == [] then (d, [])
    else if rest[0] == MESSAGE_PAD1 then Decode(rest[1..], d, ipv4)
    else
      var len := At(rest, 1);
      if len > |rest| then (d, [])
      else
        var end := if len + 2 <= |rest| then len + 2 else |rest|;
        var (d1, e1) := Handle(d, rest[..end], len, ipv4);
        var (d2, e2) := Decode(rest[end..], d1, ipv4);
        (d2, e1 + e2)
  }

  /** `parse_packet` behind the check of the sender: magic, version, body length, body. */
  function ParsePacket(packet: seq<Byte>, ipv4: bool): seq<Event> {
    if At(packet, 0) != 42 || At(packet, 1) != 2 || |packet| < 4 then []
    else
      var n := GetShort(packet, 2);
      var body := if n + 4 > |packet| then packet[4..] else packet[4..4 + n];
      Decode(body, FRESH, ipv4).1
  }

  /** The loop as coded: the decoder state is updated message by message. */
  method ParseBody(body: seq<Byte>, ipv4: bool) returns (d: Decoder, events: seq<Event>)
    ensures (d, events) == Decode(body, FRESH, ipv4)
  {
    hide Handle;
    d, events := FRESH, [];
    var rest := body;
    ghost var whole := Decode(body, FRESH, ipv4);
    assert [] + whole.1 == whole.1;
    while rest != []
      invariant (Decode(rest, d, ipv4).0, events + Decode(rest, d, ipv4).1) == whole
      decreases |rest|
    {
      if rest[0] == MESSAGE_PAD1 {
        rest := rest[1..];
        continue;
      }
      var len := At(rest, 1);
      if len > |rest| {
        assert events + [] == events;
        return;
      }
      var end := if len + 2 <= |rest| then len + 2 else |rest|;
      var (d1, e1) := Handle(d, rest[..end], len, ipv4);
      AppendAssoc(events, e1, Decode(rest[end..], d1, ipv4).1);
      d, events, rest := d1, events + e1, rest[end..];
    }
    assert events + [] == events;
  }

  // ----- the encoder ----------------------------------------------------------------

  /** What the sender remembers about the packet in its buffer. */
  datatype Encoder = Encoder(
    haveId: bool, id: RouterId,
    haveNh: bool, nh: seq<Byte>,
    havePrefix: bool, prefix: Address)

  function Forget(e: Encoder): Encoder {
    e.(haveId := false, haveNh := false, havePrefix := false)
  }

  /** An update to be sent, after the output filter. */
  datatype Update = Update(id: RouterId, prefix: Address, plen: nat, seqno: nat, metric: nat,
                           interval: nat, channels: Option<seq<Byte>>)

  predicate ValidUpdate(u: Update) {
    && u.plen <= 128 && Canonical(u.prefix, u.plen)
    && u.seqno <= 0xFFFF && u.metric <= INFINITY && u.interval <= 0xFFFF
    && (u.channels.Some? ==> |u.channels.value| <= 8)
  }

  predicate IsV4(u: Update) {
    u.plen >= 96 && V4Mapped(u.prefix)
  }

  function PutShort(v: nat): seq<Byte>
    requires v <= 0xFFFF
  {
    [v / 256, v % 256]
  }

  /** How many leading bytes the two prefixes share, at most `limit`. */
  function CommonBytes(a: Address, b: Address, i: nat, limit: nat): (n: nat)
    requires i <= limit <= 16
    ensures i <= n <= limit
    ensures a[..i] == b[..i] ==> a[..n] == b[..n]
    decreases limit - i
  {
    if i < limit && a[i] == b[i] then
      assert a[..i] == b[..i] ==> a[..i + 1] == b[..i + 1] by {
        assert a[..i + 1] == a[..i] + [a[i]] && b[..i + 1] == b[..i] + [b[i]];
      }
      CommonBytes(a, b, i + 1, limit)
    else i
  }

  function Omit(e: Encoder, u: Update): (n: nat)
    requires ValidUpdate(u)
    ensures n <= u.plen / 8 <= 16
  {
    if IsV4(u) || !e.havePrefix then 0 else CommonBytes(e.prefix, u.prefix, 0, u.plen / 8)
  }

  predicate SetsPrefix(e: Encoder, u: Update) {
    !IsV4(u) && (!e.havePrefix || u.plen >= 48)
  }

  predicate NewId(e: Encoder, u: Update) {
    !e.haveId || e.id != u.id
  }

  predicate IdInPrefix(u: Update) {
    !IsV4(u) && u.plen == 128 && u.prefix[8..] == u.id
  }

  function NextHopTlv(e: Encoder, u: Update, ipv4: seq<Byte>): seq<Byte>
    requires |ipv4| == 4
  {
    if IsV4(u) && (!e.haveNh || e.nh != ipv4) then [MESSAGE_NH, 6, 1, 0] + ipv4 else []
  }

  function RouterIdTlv(e: Encoder, u: Update): seq<Byte> {
    if NewId(e, u) && !IdInPrefix(u) then [MESSAGE_ROUTER_ID, 10, 0, 0] + u.id else []
  }

  function Flags(e: Encoder, u: Update): Byte {
    (if SetsPrefix(e, u) then 0x80 else 0) + (if NewId(e, u) && IdInPrefix(u) then 0x40 else 0)
  }

  function RealPrefix(u: Update): seq<Byte> {
    if IsV4(u) then u.prefix[12..] else u.prefix
  }

  function RealPlen(u: Update): nat
    requires ValidUpdate(u)
  {
    if IsV4(u) then u.plen - 96 else u.plen
  }

  function ChannelBytes(u: Update): seq<Byte>
    requires ValidUpdate(u)
  {
    if u.channels.None? then [] else [2, |u.channels.value|] + u.channels.value
  }

  function UpdateBody(e: Encoder, u: Update): (b: seq<Byte>)
    requires ValidUpdate(u)
    ensures 10 <= |b| <= 36
  {
    [if IsV4(u) then 1 else 2, Flags(e, u), RealPlen(u), Omit(e, u)]
    + PutShort(u.interval) + PutShort(u.seqno) + PutShort(u.metric)
    + RealPrefix(u)[Omit(e, u)..PrefixBytes(RealPlen(u))] + ChannelBytes(u)
  }

  function UpdateTlv(e: Encoder, u: Update): seq<Byte>
    requires ValidUpdate(u)
  {
    [MESSAGE_UPDATE, |UpdateBody(e, u)|] + UpdateBody(e, u)
  }

  /** All that is written for one update. */
  function UpdateBytes(e: Encoder, u: Update, ipv4: seq<Byte>): (b: seq<Byte>)
    requires ValidUpdate(u) && |ipv4| == 4
    ensures |b| <= 60
  {
    NextHopTlv(e, u, ipv4) + RouterIdTlv(e, u) + UpdateTlv(e, u)
  }

  function NextEncoder(e: Encoder, u: Update, ipv4: seq<Byte>): Encoder {
    var e1 := if IsV4(u) then e.(haveNh := true, nh := ipv4) else e;
    var e2 := e1.(haveId := true, id := u.id);
    if SetsPrefix(e, u) then e2.(havePrefix := true, prefix := u.prefix) else e2
  }

  const WILDCARD_HEAD: seq<Byte> := [MESSAGE_UPDATE, 10, 0, 0x40, 0, 0, 0xFF, 0xFF]

  /** `send_wildcard_retraction`. */
  function WildcardTlv(seqno: nat): seq<Byte>
    requires seqno <= 0xFFFF
  {
    WILDCARD_HEAD + PutShort(seqno) + [0xFF, 0xFF]
  }
}
