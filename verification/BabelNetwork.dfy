/** Loop freedom of a network of Babel routers.

    A network is any number of routers, each a `BabelNode.Node`, and the updates ever sent.  A sent
    update stays available: it may be delivered late, repeatedly, in any order, or never.  The main
    result is that in every run the installed next hops towards one source never form a cycle. */
module BabelNetwork {
  import opened Wrappers
  import opened BabelMetric
  import opened Seqno
  import opened BabelNode
  import opened BabelInvariants
  import opened BabelOperations

  /** An update on its way, with the router that sent it. */
  datatype Msg = Msg(from: nat, ad: Advert)

  datatype Net = Net(nodes: map<nat, Node>, msgs: set<Msg>)

  function MsgKey(m: Msg): SourceKey {
    SourceKey(m.ad.id, m.ad.dest)
  }

  // ----- steps ----------------------------------------------------------------------

  /** What router `a` may do. */
  datatype Step =
    | Deliver(a: nat, msg: Msg, ifp: nat, nexthop: nat, interval: nat, cost: nat, addMetric: nat, martian: bool)
    | Send(a: nat, dest: Dest, mode: SendMode)
    | ChangeMetric(a: nat, dest: Dest, j: nat, cost: nat, addMetric: nat)
    | Retract(a: nat, dest: Dest, j: nat)
    | Flush(a: nat, dest: Dest, j: nat)
    | Export(a: nat, dest: Dest, metric: nat, martian: bool)
    | Unexport(a: nat, dest: Dest)
    | Clock(a: nat, now: int)
    | NewSeqno(a: nat)

  function ReceivedOf(s: Step): Received
    requires s.Deliver?
  {
    Received(s.msg.ad.id, s.msg.ad.dest, s.msg.ad.seqno, s.msg.ad.metric, s.interval,
             Neighbour(s.msg.from, s.ifp), s.nexthop, s.cost, s.addMetric)
  }

  predicate Enabled(net: Net, s: Step) {
    && s.a in net.nodes
    && (s.Deliver? ==> s.msg in net.msgs && s.msg.from != s.a)
    && (s.ChangeMetric? || s.Retract? || s.Flush? ==> s.j < |ChainOf(net.nodes[s.a], s.dest)|)
  }

  /** The router after its own step. */
  function NodeAfter(net: Net, s: Step): Node
    requires Enabled(net, s)
  {
    var n := net.nodes[s.a];
    match s
    case Deliver(_, _, _, _, _, _, _, martian) => UpdateRoute(n, ReceivedOf(s), martian)
    case Send(_, d, mode) => Advertise(n, d, mode).0
    case ChangeMetric(_, d, j, cost, addMetric) => UpdateRouteMetric(n, d, j, cost, addMetric)
    case Retract(_, d, j) => RetractRoute(n, d, j)
    case Flush(_, d, j) => FlushRoute(n, d, j)
    case Export(_, d, metric, martian) => AddXroute(n, d, metric, martian)
    case Unexport(_, d) => FlushXroute(n, d)
    case Clock(_, now) => n.(now := now)
    case NewSeqno(_) => n.(myseqno := n.myseqno + 1)
  }

  function MsgsAfter(net: Net, s: Step): set<Msg>
    requires Enabled(net, s)
  {
    if s.Send? then
      var out := Advertise(net.nodes[s.a], s.dest, s.mode).1;
      if out.Some? then net.msgs + {Msg(s.a, out.value)} else net.msgs
    else net.msgs
  }

  function Apply(net: Net, s: Step): Net
    requires Enabled(net, s)
  {
    Net(net.nodes[s.a := NodeAfter(net, s)], MsgsAfter(net, s))
  }

  // ----- feasibility distances ------------------------------------------------------

  predicate AtLeastAsGood(s1: int, m1: nat, s2: int, m2: nat) {
    s1 > s2 || (s1 == s2 && m1 <= m2)
  }

  predicate StrictlyBetter(s1: int, m1: nat, s2: int, m2: nat) {
    s1 > s2 || (s1 == s2 && m1 < m2)
  }

  /** The distance of router `b` for a source is at least as good as the given one. */
  predicate Reaches(net: Net, b: nat, key: SourceKey, seqno: int, metric: nat) {
    && b in net.nodes && key in net.nodes[b].srcs
    && AtLeastAsGood(net.nodes[b].srcs[key].seqno, net.nodes[b].srcs[key].metric, seqno, metric)
  }

  /** Router `b` is strictly closer to a source than router `a`. */
  predicate Closer(net: Net, b: nat, a: nat, key: SourceKey) {
    && a in net.nodes && key in net.nodes[a].srcs
    && b in net.nodes && key in net.nodes[b].srcs
    && StrictlyBetter(net.nodes[b].srcs[key].seqno, net.nodes[b].srcs[key].metric,
                      net.nodes[a].srcs[key].seqno, net.nodes[a].srcs[key].metric)
  }

  // ----- the invariant --------------------------------------------------------------

  /** A finite update sent by a router that is not its source is no better than the distance the
      sender keeps. */
  predicate MsgOk(net: Net, m: Msg) {
    && m.from in net.nodes
    && (m.ad.metric < INFINITY && m.ad.id != m.from ==> Reaches(net, m.from, MsgKey(m), m.ad.seqno, m.ad.metric))
  }

  predicate EntryOk(net: Net, a: nat, r: Route) {
    && r.neigh.router in net.nodes && r.neigh.router != a
    && (r.refmetric < INFINITY && r.src.id != r.neigh.router ==>
          Reaches(net, r.neigh.router, r.src, r.seqno, r.refmetric))
  }

  /** The next hop of an installed route is its source, or strictly closer to it. */
  predicate HopOk(net: Net, a: nat, r: Route) {
    r.src.id == r.neigh.router || Closer(net, r.neigh.router, a, r.src)
  }

  ghost predicate NodeOk(net: Net, a: nat)
    requires a in net.nodes
  {
    var n := net.nodes[a];
    && n.myid == a && NodeInv(n)
    && (forall d, i :: 0 <= i < |ChainOf(n, d)| ==> EntryOk(net, a, ChainOf(n, d)[i]))
    && (forall d :: HasInstalled(n, d) ==> HopOk(net, a, ChainOf(n, d)[0]))
  }

  ghost predicate NetInv(net: Net) {
    && (forall a :: a in net.nodes ==> NodeOk(net, a))
    && (forall m :: m in net.msgs ==> MsgOk(net, m))
  }

  // ----- what runs are considered ---------------------------------------------------

  predicate InWindow(x: int, y: int) {
    -HALF < x - y < HALF
  }

  /** Within one router: no source has gone stale, stored costs are positive, and the sequence
      numbers compared for a source lie in a half window. */
  ghost predicate NodeInScope(n: Node) {
    && (forall key :: key in n.srcs ==> !Stale(n.srcs[key], n.now))
    && (forall d, i :: 0 <= i < |ChainOf(n, d)| ==>
          && ChainOf(n, d)[i].cost >= 1
          && (ChainOf(n, d)[i].src in n.srcs ==> InWindow(ChainOf(n, d)[i].seqno, n.srcs[ChainOf(n, d)[i].src].seqno)))
  }

  ghost predicate InScope(net: Net) {
    forall a :: a in net.nodes ==> NodeInScope(net.nodes[a])
  }

  /** A route that becomes installed, or moves to another source while installed, has a finite
      metric at that time. */
  predicate AnchoredAt(n: Node, n': Node, d: Dest) {
    HasInstalled(n', d) ==>
      || (HasInstalled(n, d) && SameHop(ChainOf(n, d)[0], ChainOf(n', d)[0]))
      || ChainOf(n', d)[0].refmetric < INFINITY
  }

  ghost predicate Anchored(net: Net, s: Step)
    requires Enabled(net, s)
  {
    forall d :: AnchoredAt(net.nodes[s.a], NodeAfter(net, s), d)
  }

  // ----- distances only improve -----------------------------------------------------

  ghost predicate Improves(net: Net, net': Net) {
    forall b, key :: b in net.nodes && key in net.nodes[b].srcs ==>
      b in net'.nodes && key in net'.nodes[b].srcs
      && AtLeastAsGood(net'.nodes[b].srcs[key].seqno, net'.nodes[b].srcs[key].metric,
                       net.nodes[b].srcs[key].seqno, net.nodes[b].srcs[key].metric)
  }

  lemma ReachesImproves(net: Net, net': Net, b: nat, key: SourceKey, seqno: int, metric: nat)
    requires Improves(net, net') && Reaches(net, b, key, seqno, metric)
    ensures Reaches(net', b, key, seqno, metric)
  {
  }

  lemma MsgsKept(net: Net, net': Net)
    requires Improves(net, net') && net.nodes.Keys <= net'.nodes.Keys
    requires forall m :: m in net.msgs ==> MsgOk(net, m)
    ensures forall m :: m in net.msgs ==> MsgOk(net', m)
  {
    forall m | m in net.msgs ensures MsgOk(net', m) {
      assert MsgOk(net, m);
      if m.ad.metric < INFINITY && m.ad.id != m.from {
        ReachesImproves(net, net', m.from, MsgKey(m), m.ad.seqno, m.ad.metric);
      }
    }
  }

  lemma EntryKept(net: Net, net': Net, a: nat, r: Route)
    requires Improves(net, net') && net.nodes.Keys <= net'.nodes.Keys && EntryOk(net, a, r)
    ensures EntryOk(net', a, r)
  {
    if r.refmetric < INFINITY && r.src.id != r.neigh.router {
      ReachesImproves(net, net', r.neigh.router, r.src, r.seqno, r.refmetric);
    }
  }

  /** A router that stays as it is keeps its part of the invariant. */
  lemma OthersKept(net: Net, net': Net, c: nat)
    requires Improves(net, net') && net.nodes.Keys <= net'.nodes.Keys
    requires c in net.nodes && net'.nodes[c] == net.nodes[c] && NodeOk(net, c)
    ensures NodeOk(net', c)
  {
    var n := net.nodes[c];
    forall d, i | 0 <= i < |ChainOf(n, d)| ensures EntryOk(net', c, ChainOf(n, d)[i]) {
      EntryKept(net, net', c, ChainOf(n, d)[i]);
    }
    forall d | HasInstalled(n, d) ensures HopOk(net', c, ChainOf(n, d)[0]) {
      assert HopOk(net, c, ChainOf(n, d)[0]);
    }
  }

  // ----- local steps ----------------------------------------------------------------

  /** What a received update is allowed to say. */
  predicate CarriedOk(net: Net, a: nat, m: Option<Received>) {
    m.Some? ==>
      && m.value.neigh.router in net.nodes && m.value.neigh.router != a
      && (m.value.refmetric < INFINITY && m.value.id != m.value.neigh.router ==>
            Reaches(net, m.value.neigh.router, KeyOf(m.value), m.value.seqno, m.value.refmetric))
  }

  lemma LocalImproves(net: Net, a: nat, n': Node, net': Net)
    requires a in net.nodes && FdsKept(net.nodes[a].srcs, n'.srcs)
    requires net'.nodes == net.nodes[a := n']
    ensures Improves(net, net') && net'.nodes.Keys == net.nodes.Keys
  {
  }

  lemma EntrySourced(net: Net, a: nat, m: Option<Received>, c: Chain, r: Route)
    requires CarriedOk(net, a, m) && Sourced(c, m, r)
    requires forall i :: 0 <= i < |c| ==> EntryOk(net, a, c[i])
    ensures EntryOk(net, a, r)
  {
    if !Carries(m, r) {
      var i :| 0 <= i < |c| && Descends(c[i], r);
      assert EntryOk(net, a, c[i]);
    }
  }

  /** A feasible finite route beats the distance of the router that holds it. */
  lemma FeasibleIsBetter(n: Node, r: Route)
    requires RouteFeasible(n, r) && r.refmetric < INFINITY && r.src in n.srcs
    requires !Stale(n.srcs[r.src], n.now) && InWindow(r.seqno, n.srcs[r.src].seqno)
    ensures StrictlyBetter(r.seqno, r.refmetric, n.srcs[r.src].seqno, n.srcs[r.src].metric)
  {
    WireCompare(r.seqno, n.srcs[r.src].seqno);
  }

  lemma InstalledHop(net: Net, net': Net, a: nat, n': Node, m: Option<Received>, d: Dest)
    requires a in net.nodes && NodeOk(net, a) && LocalStep(net.nodes[a], n', m) && NodeInv(n')
    requires net'.nodes == net.nodes[a := n'] && NodeInScope(n')
    requires HasInstalled(n', d) && AnchoredAt(net.nodes[a], n', d)
    requires EntryOk(net', a, ChainOf(n', d)[0])
    ensures HopOk(net', a, ChainOf(n', d)[0])
  {
    var n, r := net.nodes[a], ChainOf(n', d)[0];
    assert ChainOk(n', d, n'.chains[d]);
    assert RouteOk(n', d, r);
    if HasInstalled(n, d) && SameHop(ChainOf(n, d)[0], r) {
      assert HopOk(net, a, ChainOf(n, d)[0]);
      assert EntryOk(net, a, ChainOf(n, d)[0]);
    } else if r.src.id != r.neigh.router {
      FeasibleIsBetter(n', r);
    }
  }

  lemma LocalStepKeeps(net: Net, a: nat, n': Node, m: Option<Received>, net': Net)
    requires NetInv(net) && a in net.nodes && CarriedOk(net, a, m)
    requires LocalStep(net.nodes[a], n', m) && NodeInv(n')
    requires net' == Net(net.nodes[a := n'], net.msgs) && NodeInScope(n')
    requires forall d :: AnchoredAt(net.nodes[a], n', d)
    ensures NetInv(net')
  {
    var n := net.nodes[a];
    assert NodeOk(net, a);
    LocalImproves(net, a, n', net');
    MsgsKept(net, net');
    forall c | c in net'.nodes && c != a ensures NodeOk(net', c) {
      assert NodeOk(net, c);
      OthersKept(net, net', c);
    }
    forall d, i | 0 <= i < |ChainOf(n', d)| ensures EntryOk(net', a, ChainOf(n', d)[i]) {
      assert Sourced(ChainOf(n, d), m, ChainOf(n', d)[i]);
      EntrySourced(net, a, m, ChainOf(n, d), ChainOf(n', d)[i]);
      EntryKept(net, net', a, ChainOf(n', d)[i]);
    }
    forall d | HasInstalled(n', d) ensures HopOk(net', a, ChainOf(n', d)[0]) {
      InstalledHop(net, net', a, n', m, d);
    }
    assert NodeOk(net', a);
  }

  // ----- advertisements -------------------------------------------------------------

  /** A router that advertises keeps the better of its old distance and the advertised one. */
  lemma UpdatedSourceIsMin(s: Source, now: int, seqno: int, metric: nat)
    requires !Stale(s, now) && InWindow(seqno, s.seqno)
    ensures var t := UpdatedSource(s, now, seqno, metric);
            && AtLeastAsGood(t.seqno, t.metric, s.seqno, s.metric)
            && (metric < INFINITY ==> AtLeastAsGood(t.seqno, t.metric, seqno, metric))
            && ((t.seqno == s.seqno && t.metric == s.metric) || (t.seqno == seqno && t.metric == metric < INFINITY))
  {
    WireCompare(s.seqno, seqno);
  }

  /** What is advertised is strictly worse than what the next hop announced. */
  lemma AdvertisedIsWorse(r: Route, mode: SendMode)
    requires r.cost >= 1
    ensures var metric := if mode.interferes then RouteMetric(r) else RouteMetricNoninterfering(r, mode.diversityFactor);
            metric >= INFINITY || metric > r.refmetric
  {
  }

  /** Sending never makes a distance worse. */
  lemma AdvertisedDistance(n: Node, d: Dest, mode: SendMode, key: SourceKey)
    requires NodeInScope(n) && NodeInv(n) && key in n.srcs
    ensures var srcs := Advertise(n, d, mode).0.srcs;
            key in srcs && AtLeastAsGood(srcs[key].seqno, srcs[key].metric, n.srcs[key].seqno, n.srcs[key].metric)
  {
    if HasInstalled(n, d) {
      var r := ChainOf(n, d)[0];
      var metric := if mode.interferes then RouteMetric(r) else RouteMetricNoninterfering(r, mode.diversityFactor);
      if r.src in n.srcs {
        UpdatedSourceIsMin(n.srcs[r.src], n.now, r.seqno, metric);
      }
    }
    hide UpdatedSource, RouteMetric, RouteMetricNoninterfering, NodeInScope, NodeInv;
  }

  lemma AdvertiseImproves(net: Net, a: nat, d: Dest, mode: SendMode, net': Net)
    requires a in net.nodes && NodeInScope(net.nodes[a]) && NodeInv(net.nodes[a])
    requires net'.nodes == net.nodes[a := Advertise(net.nodes[a], d, mode).0]
    ensures Improves(net, net') && net'.nodes.Keys == net.nodes.Keys
  {
    hide Advertise, NodeInScope, NodeInv;
    forall key | key in net.nodes[a].srcs
      ensures var srcs := Advertise(net.nodes[a], d, mode).0.srcs;
              key in srcs && AtLeastAsGood(srcs[key].seqno, srcs[key].metric, net.nodes[a].srcs[key].seqno, net.nodes[a].srcs[key].metric)
    {
      AdvertisedDistance(net.nodes[a], d, mode, key);
    }
  }

  lemma AdvertisedMsgOk(net: Net, a: nat, d: Dest, mode: SendMode, net': Net)
    requires a in net.nodes && NodeOk(net, a) && NodeInScope(net.nodes[a])
    requires net'.nodes == net.nodes[a := Advertise(net.nodes[a], d, mode).0]
    ensures var out := Advertise(net.nodes[a], d, mode).1; out.Some? ==> MsgOk(net', Msg(a, out.value))
  {
    var n := net.nodes[a];
    if HasInstalled(n, d) {
      var r := ChainOf(n, d)[0];
      var metric := if mode.interferes then RouteMetric(r) else RouteMetricNoninterfering(r, mode.diversityFactor);
      assert ChainOk(n, d, n.chains[d]);
      assert RouteOk(n, d, r);
      UpdatedSourceIsMin(n.srcs[r.src], n.now, r.seqno, metric);
      hide UpdatedSource, RouteMetric, RouteMetricNoninterfering;
    }
  }

  lemma AdvertisedHop(net: Net, a: nat, d: Dest, mode: SendMode, net': Net, x: Dest)
    requires a in net.nodes && NodeOk(net, a) && NodeInScope(net.nodes[a])
    requires net'.nodes == net.nodes[a := Advertise(net.nodes[a], d, mode).0]
    requires HasInstalled(net.nodes[a], x)
    ensures HopOk(net', a, ChainOf(net.nodes[a], x)[0])
  {
    var n, q := net.nodes[a], ChainOf(net.nodes[a], x)[0];
    assert HopOk(net, a, q) && EntryOk(net, a, q);
    assert ChainOk(n, x, n.chains[x]);
    assert RouteOk(n, x, q);
    if HasInstalled(n, d) {
      var r := ChainOf(n, d)[0];
      var metric := if mode.interferes then RouteMetric(r) else RouteMetricNoninterfering(r, mode.diversityFactor);
      assert ChainOk(n, d, n.chains[d]);
      assert RouteOk(n, d, r);
      UpdatedSourceIsMin(n.srcs[r.src], n.now, r.seqno, metric);
      AdvertisedIsWorse(r, mode);
      hide UpdatedSource, RouteMetric, RouteMetricNoninterfering;
    }
  }

  /** The sender itself. */
  lemma SenderKept(net: Net, a: nat, d: Dest, mode: SendMode, net': Net)
    requires a in net.nodes && NodeOk(net, a) && NodeInScope(net.nodes[a])
    requires net'.nodes == net.nodes[a := Advertise(net.nodes[a], d, mode).0]
    requires Improves(net, net')
    ensures NodeOk(net', a)
  {
    var n, n' := net.nodes[a], Advertise(net.nodes[a], d, mode).0;
    AdvertiseInv(n, d, mode);
    ChainsKept(n, d, mode);
    hide Advertise, NodeInScope, NodeInv;
    forall x, i | 0 <= i < |ChainOf(n', x)| ensures EntryOk(net', a, ChainOf(n', x)[i]) {
      assert EntryOk(net, a, ChainOf(n, x)[i]);
      EntryKept(net, net', a, ChainOf(n, x)[i]);
    }
    forall x | HasInstalled(n', x) ensures HopOk(net', a, ChainOf(n', x)[0]) {
      AdvertisedHop(net, a, d, mode, net', x);
    }
  }

  lemma ChainsKept(n: Node, d: Dest, mode: SendMode)
    ensures Advertise(n, d, mode).0.chains == n.chains && Advertise(n, d, mode).0.myid == n.myid
  {
    hide UpdatedSource, RouteMetric, RouteMetricNoninterfering, Sent;
  }

  lemma AdvertiseKeeps(net: Net, a: nat, d: Dest, mode: SendMode, net': Net)
    requires NetInv(net) && a in net.nodes && NodeInScope(net.nodes[a])
    requires net'.nodes == net.nodes[a := Advertise(net.nodes[a], d, mode).0]
    requires var out := Advertise(net.nodes[a], d, mode).1;
             net'.msgs == if out.Some? then net.msgs + {Msg(a, out.value)} else net.msgs
    ensures NetInv(net')
  {
    assert NodeOk(net, a);
    AdvertiseImproves(net, a, d, mode, net');
    MsgsKept(net, net');
    AdvertisedMsgOk(net, a, d, mode, net');
    SenderKept(net, a, d, mode, net');
    hide Advertise, NodeInScope, NodeOk, MsgOk, Improves;
    forall c | c in net'.nodes && c != a ensures NodeOk(net', c) {
      assert NodeOk(net, c);
      OthersKept(net, net', c);
    }
  }

  // ----- every step -----------------------------------------------------------------

  lemma DeliveredOk(net: Net, s: Step)
    requires NetInv(net) && s.Deliver? && Enabled(net, s)
    ensures CarriedOk(net, s.a, Some(ReceivedOf(s)))
  {
    assert MsgOk(net, s.msg);
  }

  /** Time passing, or a new sequence number, touches no distance and no route. */
  lemma QuietStepKeeps(net: Net, a: nat, n': Node, net': Net)
    requires NetInv(net) && a in net.nodes && n' == net.nodes[a].(now := n'.now, myseqno := n'.myseqno)
    requires net' == Net(net.nodes[a := n'], net.msgs)
    ensures NetInv(net')
  {
    var n := net.nodes[a];
    assert NodeOk(net, a);
    LocalImproves(net, a, n', net');
    MsgsKept(net, net');
    ScalarsInv(n, n'.now, n'.myseqno);
    forall c | c in net'.nodes && c != a ensures NodeOk(net', c) {
      assert NodeOk(net, c);
      OthersKept(net, net', c);
    }
    forall d, i | 0 <= i < |ChainOf(n', d)| ensures EntryOk(net', a, ChainOf(n', d)[i]) {
      EntryKept(net, net', a, ChainOf(n, d)[i]);
    }
    forall d | HasInstalled(n', d) ensures HopOk(net', a, ChainOf(n', d)[0]) {
      assert HasInstalled(n, d) && HopOk(net, a, ChainOf(n, d)[0]);
    }
    assert NodeOk(net', a);
  }

  lemma OperationIsLocal(net: Net, s: Step)
    requires NetInv(net) && Enabled(net, s) && !s.Send? && !s.Clock? && !s.NewSeqno?
    ensures var m := if s.Deliver? then Some(ReceivedOf(s)) else None;
            LocalStep(net.nodes[s.a], NodeAfter(net, s), m) && NodeInv(NodeAfter(net, s))
  {
    var n := net.nodes[s.a];
    assert NodeOk(net, s.a);
    hide LocalStep, NodeInv, UpdateRoute, UpdateRouteMetric, RetractRoute, FlushRoute, AddXroute, FlushXroute;
    match s {
      case Deliver(_, _, _, _, _, _, _, martian) => UpdateRouteKeeps(n, ReceivedOf(s), martian);
      case ChangeMetric(_, d, j, cost, addMetric) => UpdateRouteMetricKeeps(n, d, j, cost, addMetric);
      case Retract(_, d, j) => RetractRouteKeeps(n, d, j);
      case Flush(_, d, j) => FlushRouteKeeps(n, d, j);
      case Export(_, d, metric, martian) =>
        AddXrouteInv(n, d, metric, martian);
        AddXrouteStep(n, d, metric, martian);
      case Unexport(_, d) => FlushXrouteKeeps(n, d);
    }
  }

  /** Every step keeps the invariant of the network. */
  lemma StepKeeps(net: Net, s: Step)
    requires NetInv(net) && InScope(net) && Enabled(net, s) && InScope(Apply(net, s)) && Anchored(net, s)
    ensures NetInv(Apply(net, s))
  {
    var n', net' := NodeAfter(net, s), Apply(net, s);
    assert NodeInScope(net'.nodes[s.a]) && NodeInScope(net.nodes[s.a]);
    hide NetInv, NodeInScope, LocalStep, NodeInv, AnchoredAt;
    if s.Send? {
      AdvertiseKeeps(net, s.a, s.dest, s.mode, net');
    } else if s.Clock? || s.NewSeqno? {
      QuietStepKeeps(net, s.a, n', net');
    } else {
      var m := if s.Deliver? then Some(ReceivedOf(s)) else None;
      if s.Deliver? {
        DeliveredOk(net, s);
      }
      OperationIsLocal(net, s);
      LocalStepKeeps(net, s.a, n', m, net');
    }
  }
}
