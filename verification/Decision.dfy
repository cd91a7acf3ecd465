/** The BGP decision process (bgpd/bgp_common.c): which of two paths is better, and whether they
    are equal enough to be used together.

    With MEDs always compared, the thirteen steps are the lexicographic order of one key. */
module Decision {
  import opened Wrappers
  import opened BgpPeers
  import opened AsPath

  const BGP_MED_MAX: nat := 0xFFFF_FFFF

  type Octets = s: seq<nat> | |s| == 16 witness [0, 0, 0, 0, 0, 0, 0, 0, 0, 0, 0, 0, 0, 0, 0, 0]

  /** The address of a peer; IPv4 sorts before IPv6, as their family numbers do. */
  datatype Address = Inet(ip: nat) | Inet6(octets: Octets)

  /** What the decision process reads of a path, of its attributes and of its peer.  Missing
      `extra` records count as zeroes, as they do in the code. */
  datatype PathInfo = PathInfo(
    weight: nat, localPref: Option<nat>, normal: bool, aspath: Path, origin: nat, med: Option<nat>,
    sort: PeerSort, peerAs: Asn, igpMetric: nat, selected: bool, held: bool,
    originatorId: Option<nat>, remoteId: nat, clusterLength: Option<nat>, address: Address)

  datatype Bgp = Bgp(
    defaultLocalPref: nat, aspathIgnore: bool, aspathConfed: bool, medMissingAsWorst: bool,
    alwaysCompareMed: bool, medConfed: bool, multipathRelax: bool, compareRouterId: bool)

  // ----- the comparison -------------------------------------------------------------

  function MedValue(bgp: Bgp, p: PathInfo): nat {
    if p.med.Some? then p.med.value else if bgp.medMissingAsWorst then BGP_MED_MAX else 0
  }

  function LocalPref(bgp: Bgp, p: PathInfo): nat {
    if p.localPref.Some? then p.localPref.value else bgp.defaultLocalPref
  }

  function PathLength(bgp: Bgp, p: PathInfo): nat {
    if bgp.aspathConfed then CountHops(p.aspath) + CountConfeds(p.aspath) else CountHops(p.aspath)
  }

  function RouterId(p: PathInfo): nat {
    if p.originatorId.Some? then p.originatorId.value else p.remoteId
  }

  function ClusterLength(p: PathInfo): nat {
    if p.clusterLength.Some? then p.clusterLength.value else 0
  }

  function SkipConfeds(p: Path): Path {
    if p != [] && (p[0].kind.AsConfedSequence? || p[0].kind.AsConfedSet?) then SkipConfeds(p[1..]) else p
  }

  /** Two paths start with the same AS number in a segment of the given kind. */
  predicate SameFirst(p: Path, q: Path, kind: SegType) {
    && p != [] && q != [] && p[0].kind == kind && q[0].kind == kind
    && p[0].asns != [] && q[0].asns != [] && p[0].asns[0] == q[0].asns[0]
  }

  /** Whether step 6 looks at the MEDs. */
  predicate MedsCompared(bgp: Bgp, a: PathInfo, b: PathInfo) {
    var internalRoutes := CountHops(a.aspath) == 0 && CountHops(b.aspath) == 0;
    || bgp.alwaysCompareMed
    || (bgp.medConfed && internalRoutes && CountConfeds(a.aspath) > 0 && CountConfeds(b.aspath) > 0)
    || SameFirst(SkipConfeds(a.aspath), SkipConfeds(b.aspath), AsSequence)
    || SameFirst(a.aspath, b.aspath, AsConfedSequence)
    || internalRoutes
  }

  datatype Verdict = Better | Worse | Tied

  /** Steps 1 to 8. */
  function Preference(bgp: Bgp, a: PathInfo, b: PathInfo): Verdict {
    if a.weight > b.weight then Better
    else if a.weight < b.weight then Worse
    else if LocalPref(bgp, a) > LocalPref(bgp, b) then Better
    else if LocalPref(bgp, a) < LocalPref(bgp, b) then Worse
    else if !a.normal then Better
    else if !b.normal then Worse
    else if !bgp.aspathIgnore && PathLength(bgp, a) < PathLength(bgp, b) then Better
    else if !bgp.aspathIgnore && PathLength(bgp, a) > PathLength(bgp, b) then Worse
    else if a.origin < b.origin then Better
    else if a.origin > b.origin then Worse
    else if MedsCompared(bgp, a, b) && MedValue(bgp, a) < MedValue(bgp, b) then Better
    else if MedsCompared(bgp, a, b) && MedValue(bgp, a) > MedValue(bgp, b) then Worse
    else if a.sort.Ebgp? && (b.sort.Ibgp? || b.sort.Confed?) then Better
    else if b.sort.Ebgp? && (a.sort.Ibgp? || a.sort.Confed?) then Worse
    else if a.igpMetric < b.igpMetric then Better
    else if a.igpMetric > b.igpMetric then Worse
    else Tied
  }

  /** in6addr_cmp, from octet `i` on. */
  function OctetsCmp(a: Octets, b: Octets, i: nat): int
    requires i <= 16
    decreases 16 - i
  {
    if i == 16 then 0
    else if a[i] > b[i] then 1
    else if a[i] < b[i] then -1
    else OctetsCmp(a, b, i + 1)
  }

  function SockunionCmp(a: Address, b: Address): int {
    match (a, b)
    case (Inet(x), Inet(y)) => if x == y then 0 else if x > y then 1 else -1
    case (Inet(_), Inet6(_)) => -1
    case (Inet6(_), Inet(_)) => 1
    case (Inet6(x), Inet6(y)) => OctetsCmp(x, y, 0)
  }

  /** Steps 10 to 13. */
  predicate WinsTie(bgp: Bgp, a: PathInfo, b: PathInfo) {
    if !bgp.compareRouterId && a.sort.Ebgp? && b.sort.Ebgp? && a.selected then true
    else if !bgp.compareRouterId && a.sort.Ebgp? && b.sort.Ebgp? && b.selected then false
    else if RouterId(a) < RouterId(b) then true
    else if RouterId(a) > RouterId(b) then false
    else if ClusterLength(a) < ClusterLength(b) then true
    else if ClusterLength(a) > ClusterLength(b) then false
    else SockunionCmp(a.address, b.address) != 1
  }

  predicate PathsEqual(bgp: Bgp, a: PathInfo, b: PathInfo) {
    && Preference(bgp, a, b).Tied?
    && (bgp.multipathRelax || if a.sort.Ibgp? then a.aspath == b.aspath else a.peerAs == b.peerAs)
  }

  /** bgp_info_cmp: whether the new path is better, and whether the two are equal for multipath. */
  function InfoCmp(bgp: Bgp, new_: Option<PathInfo>, exist: Option<PathInfo>): (bool, bool) {
    if new_.None? then (false, false)
    else if exist.None? then (true, false)
    else
      var a, b := new_.value, exist.value;
      match Preference(bgp, a, b)
      case Better => (true, false)
      case Worse => (false, false)
      case Tied => (WinsTie(bgp, a, b), PathsEqual(bgp, a, b))
  }

  predicate Beats(bgp: Bgp, a: PathInfo, b: PathInfo) {
    InfoCmp(bgp, Some(a), Some(b)).0
  }

  // ----- keys -----------------------------------------------------------------------

  datatype Key = End | Then(head: int, rest: Key)

  predicate KeyLess(a: Key, b: Key) {
    match (a, b)
    case (Then(x, r), Then(y, s)) => x < y || (x == y && KeyLess(r, s))
    case (End, Then(_, _)) => true
    case _ => false
  }

  lemma {:induction false} KeyTransitive(a: Key, b: Key, c: Key)
    requires KeyLess(a, b) && KeyLess(b, c)
    ensures KeyLess(a, c)
  {
    if a.Then? && b.Then? && c.Then? && a.head == b.head && b.head == c.head {
      KeyTransitive(a.rest, b.rest, c.rest);
    }
  }

  /** Exactly one of less, equal, greater. */
  lemma {:induction false} KeyTotal(a: Key, b: Key)
    ensures KeyLess(a, b) <==> a != b && !KeyLess(b, a)
  {
    if a.Then? && b.Then? {
      KeyTotal(a.rest, b.rest);
    }
  }

  lemma KeyStep(a: Key, b: Key)
    requires a.Then? && b.Then?
    ensures KeyLess(a, b) <==> a.head < b.head || (a.head == b.head && KeyLess(a.rest, b.rest))
  {
  }

  function Concat(a: Key, b: Key): Key {
    match a
    case End => b
    case Then(x, r) => Then(x, Concat(r, b))
  }

  function Length(a: Key): nat {
    match a
    case End => 0
    case Then(_, r) => 1 + Length(r)
  }

  /** A tie in the first part is decided by the second. */
  lemma {:induction false} KeyConcat(a: Key, b: Key, x: Key, y: Key)
    requires Length(a) == Length(b)
    ensures KeyLess(Concat(a, x), Concat(b, y)) <==> KeyLess(a, b) || (a == b && KeyLess(x, y))
    ensures Concat(a, x) == Concat(b, y) <==> a == b && x == y
  {
    if a.Then? {
      KeyConcat(a.rest, b.rest, x, y);
    }
  }

  /** What steps 1 to 8 order by. */
  function ClassKey(bgp: Bgp, p: PathInfo): Key {
    Then(-(p.weight as int), Then(-(LocalPref(bgp, p) as int), Then(if bgp.aspathIgnore then 0 else PathLength(bgp, p),
    Then(p.origin, Then(MedValue(bgp, p), Then(if p.sort.Ebgp? then 0 else 1, Then(p.igpMetric, End)))))))
  }

  lemma ClassLength(bgp: Bgp, p: PathInfo)
    ensures Length(ClassKey(bgp, p)) == 7
  {
    var k := ClassKey(bgp, p);
    assert Length(k.rest.rest.rest.rest.rest.rest) == 1;
    assert Length(k.rest.rest.rest.rest) == 3;
    assert Length(k.rest.rest) == 5;
  }

  function OctetsKey(s: Octets, i: nat): Key
    requires i <= 16
    decreases 16 - i
  {
    if i == 16 then End else Then(s[i], OctetsKey(s, i + 1))
  }

  function AddressKey(a: Address): Key {
    match a
    case Inet(ip) => Then(0, Then(ip, End))
    case Inet6(octets) => Then(1, OctetsKey(octets, 0))
  }

  /** What steps 10 to 13 order by. */
  function BreakKey(bgp: Bgp, p: PathInfo): Key {
    Then(if !bgp.compareRouterId && p.sort.Ebgp? && p.selected then 0 else 1,
    Then(RouterId(p), Then(ClusterLength(p), AddressKey(p.address))))
  }

  function DecisionKey(bgp: Bgp, p: PathInfo): Key {
    Concat(ClassKey(bgp, p), BreakKey(bgp, p))
  }

  // ----- the order ------------------------------------------------------------------

  /** Paths the decision order is about: learned from EBGP, IBGP or confederation peers. */
  predicate Learned(p: PathInfo) {
    p.normal && !p.sort.Internal?
  }

  /** Paths that can stand side by side: from different peers, at most one of them selected. */
  predicate SideBySide(a: PathInfo, b: PathInfo) {
    Learned(a) && Learned(b) && a.address != b.address && !(a.selected && b.selected)
  }

  lemma ClassOrder(bgp: Bgp, a: PathInfo, b: PathInfo)
    requires bgp.alwaysCompareMed && Learned(a) && Learned(b)
    ensures Preference(bgp, a, b).Better? <==> KeyLess(ClassKey(bgp, a), ClassKey(bgp, b))
    ensures Preference(bgp, a, b).Worse? <==> KeyLess(ClassKey(bgp, b), ClassKey(bgp, a))
    ensures Preference(bgp, a, b).Tied? <==> ClassKey(bgp, a) == ClassKey(bgp, b)
  {
    var x, y := ClassKey(bgp, a), ClassKey(bgp, b);
    hide LocalPref, PathLength, MedValue, KeyLess;
    KeyTotal(x, y);
    KeyTotal(y, x);
    KeyStep(x, y);
    KeyStep(x.rest, y.rest);
    KeyStep(x.rest.rest, y.rest.rest);
    KeyStep(x.rest.rest.rest, y.rest.rest.rest);
    KeyStep(x.rest.rest.rest.rest, y.rest.rest.rest.rest);
    KeyStep(x.rest.rest.rest.rest.rest, y.rest.rest.rest.rest.rest);
    KeyStep(x.rest.rest.rest.rest.rest.rest, y.rest.rest.rest.rest.rest.rest);
    KeyTotal(End, End);
  }

  lemma {:induction false} OctetsOrder(a: Octets, b: Octets, i: nat)
    requires i <= 16
    ensures OctetsCmp(a, b, i) == -1 <==> KeyLess(OctetsKey(a, i), OctetsKey(b, i))
    ensures OctetsCmp(a, b, i) == 0 <==> a[i..] == b[i..]
    ensures OctetsCmp(a, b, i) in {-1, 0, 1}
    decreases 16 - i
  {
    if i < 16 {
      OctetsOrder(a, b, i + 1);
      assert a[i..] == [a[i]] + a[i + 1..] && b[i..] == [b[i]] + b[i + 1..];
    }
  }

  lemma AddressOrder(a: Address, b: Address)
    ensures SockunionCmp(a, b) == -1 <==> KeyLess(AddressKey(a), AddressKey(b))
    ensures SockunionCmp(a, b) == 0 <==> a == b
    ensures SockunionCmp(a, b) in {-1, 0, 1}
  {
    KeyStep(AddressKey(a), AddressKey(b));
    if a.Inet6? && b.Inet6? {
      OctetsOrder(a.octets, b.octets, 0);
      assert a.octets[0..] == a.octets && b.octets[0..] == b.octets;
    }
  }

  lemma AddressKeysDiffer(a: Address, b: Address)
    requires a != b
    ensures AddressKey(a) != AddressKey(b)
  {
    AddressOrder(a, b);
    AddressOrder(b, a);
    SockunionAntisymmetric(a, b);
    KeyTotal(AddressKey(a), AddressKey(b));
  }

  lemma {:induction false} OctetsAntisymmetric(a: Octets, b: Octets, i: nat)
    requires i <= 16
    ensures OctetsCmp(a, b, i) == -OctetsCmp(b, a, i)
    decreases 16 - i
  {
    if i < 16 {
      OctetsAntisymmetric(a, b, i + 1);
    }
  }

  lemma SockunionAntisymmetric(a: Address, b: Address)
    ensures SockunionCmp(a, b) == -SockunionCmp(b, a)
  {
    if a.Inet6? && b.Inet6? {
      OctetsAntisymmetric(a.octets, b.octets, 0);
    }
  }

  lemma BreakOrder(bgp: Bgp, a: PathInfo, b: PathInfo)
    requires SideBySide(a, b) && a.sort.Ebgp? == b.sort.Ebgp?
    ensures WinsTie(bgp, a, b) <==> KeyLess(BreakKey(bgp, a), BreakKey(bgp, b))
  {
    var x, y := BreakKey(bgp, a), BreakKey(bgp, b);
    AddressOrder(a.address, b.address);
    hide RouterId, ClusterLength, KeyLess, AddressKey;
    KeyStep(x, y);
    KeyStep(x.rest, y.rest);
    KeyStep(x.rest.rest, y.rest.rest);
  }

  /** The decision process is the lexicographic order of one key, whatever the other flags. */
  lemma DecisionIsKeyOrder(bgp: Bgp, a: PathInfo, b: PathInfo)
    requires bgp.alwaysCompareMed && SideBySide(a, b)
    ensures Beats(bgp, a, b) <==> KeyLess(DecisionKey(bgp, a), DecisionKey(bgp, b))
    ensures PathsEqual(bgp, a, b) <==>
              && ClassKey(bgp, a) == ClassKey(bgp, b)
              && (bgp.multipathRelax || if a.sort.Ibgp? then a.aspath == b.aspath else a.peerAs == b.peerAs)
  {
    ClassOrder(bgp, a, b);
    assert ClassKey(bgp, a) == ClassKey(bgp, b) ==> a.sort.Ebgp? == b.sort.Ebgp?;
    if a.sort.Ebgp? == b.sort.Ebgp? {
      BreakOrder(bgp, a, b);
    }
    KeyTotal(ClassKey(bgp, a), ClassKey(bgp, b));
    ClassLength(bgp, a);
    ClassLength(bgp, b);
    KeyConcat(ClassKey(bgp, a), ClassKey(bgp, b), BreakKey(bgp, a), BreakKey(bgp, b));
    hide Preference, WinsTie, KeyLess, BreakKey;
  }

  /** So it is a strict total order. */
  lemma DecisionIsTotalOrder(bgp: Bgp, a: PathInfo, b: PathInfo, c: PathInfo)
    requires bgp.alwaysCompareMed && SideBySide(a, b) && SideBySide(b, c) && SideBySide(a, c)
    ensures Beats(bgp, a, b) <==> !Beats(bgp, b, a)
    ensures Beats(bgp, a, b) && Beats(bgp, b, c) ==> Beats(bgp, a, c)
  {
    DecisionIsKeyOrder(bgp, a, b);
    DecisionIsKeyOrder(bgp, b, a);
    DecisionIsKeyOrder(bgp, b, c);
    DecisionIsKeyOrder(bgp, a, c);
    var x, y, z := DecisionKey(bgp, a), DecisionKey(bgp, b), DecisionKey(bgp, c);
    KeyDistinct(bgp, a, b);
    KeyTotal(x, y);
    hide Beats, DecisionKey, KeyLess;
    if KeyLess(x, y) && KeyLess(y, z) {
      KeyTransitive(x, y, z);
    }
  }

  lemma KeyDistinct(bgp: Bgp, a: PathInfo, b: PathInfo)
    requires a.address != b.address
    ensures DecisionKey(bgp, a) != DecisionKey(bgp, b)
  {
    AddressKeysDiffer(a.address, b.address);
    ClassLength(bgp, a);
    ClassLength(bgp, b);
    KeyConcat(ClassKey(bgp, a), ClassKey(bgp, b), BreakKey(bgp, a), BreakKey(bgp, b));
  }

  /** in6addr_cmp: octet by octet. */
  method In6AddrCmp(a: Octets, b: Octets) returns (r: int)
    ensures r == -1 <==> KeyLess(OctetsKey(a, 0), OctetsKey(b, 0))
    ensures r == 1 <==> KeyLess(OctetsKey(b, 0), OctetsKey(a, 0))
    ensures r == 0 <==> a == b
    ensures r == SockunionCmp(Inet6(a), Inet6(b))
  {
    OctetsOrder(a, b, 0);
    OctetsOrder(b, a, 0);
    OctetsAntisymmetric(a, b, 0);
    assert a[0..] == a && b[0..] == b;
    var i := 0;
    while i < 16
      invariant i <= 16 && OctetsCmp(a, b, i) == OctetsCmp(a, b, 0)
    {
      if a[i] > b[i] {
        return 1;
      } else if a[i] < b[i] {
        return -1;
      }
      i := i + 1;
    }
    r := 0;
  }
}
