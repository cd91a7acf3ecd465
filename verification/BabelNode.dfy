/** One Babel router as a value: route chains, sources and exported routes
    (babeld/route.c, babeld/source.c, babeld/xroute.c).

    Routes to one destination form a chain; the installed one, if any, is at its head.  Sequence
    numbers are kept as unbounded counters and compared by their 16 wire bits, as the code does.
    Calls into the kernel are taken to succeed; messages other than updates are not modelled. */
module BabelNode {
  import opened Wrappers
  import opened BabelMetric
  import opened Seqno

  const SOURCE_GC_TIME: int := 200

  /** A destination: a 128-bit prefix and its length. */
  datatype Dest = Dest(prefix: nat, plen: nat)

  /** A neighbour: the router behind it and the interface it is seen on. */
  datatype Neighbour = Neighbour(router: nat, ifp: nat)

  datatype SourceKey = SourceKey(id: nat, dest: Dest)

  datatype Source = Source(seqno: int, metric: nat, time: int, routeCount: int)

  datatype Route = Route(
    src: SourceKey, seqno: int, refmetric: nat, cost: nat, addMetric: nat,
    neigh: Neighbour, nexthop: nat, time: int, holdTime: int, installed: bool)

  type Chain = seq<Route>
  type Sources = map<SourceKey, Source>

  datatype Config = Config(keepUnfeasible: bool, allowDuplicates: int, kernelMetric: nat)

  datatype Node = Node(
    myid: nat, myseqno: int, now: int, config: Config,
    chains: map<Dest, Chain>, srcs: Sources, xroutes: map<Dest, nat>)

  function Min(a: nat, b: nat): nat {
    if a < b then a else b
  }

  function ChainOf(n: Node, d: Dest): Chain {
    if d in n.chains then n.chains[d] else []
  }

  // ----- metrics and feasibility ----------------------------------------------------

  /** route_metric */
  function RouteMetric(r: Route): nat {
    Min(r.refmetric + r.cost + r.addMetric, INFINITY)
  }

  /** route_metric_noninterfering */
  function RouteMetricNoninterfering(r: Route, diversityFactor: nat): nat {
    var m := r.refmetric + (diversityFactor * r.cost + 128) / 256 + r.addMetric;
    Min(if m > r.refmetric + 1 then m else r.refmetric + 1, INFINITY)
  }

  predicate Stale(s: Source, now: int) {
    s.time < now - SOURCE_GC_TIME
  }

  /** update_feasible (section 3.5.1 of RFC 6126) */
  predicate UpdateFeasible(srcs: Sources, now: int, key: SourceKey, seqno: int, refmetric: nat) {
    || key !in srcs
    || Stale(srcs[key], now)
    || refmetric >= INFINITY
    || SeqnoCompare(Wire(seqno), Wire(srcs[key].seqno)) > 0
    || (Wire(seqno) == Wire(srcs[key].seqno) && refmetric < srcs[key].metric)
  }

  predicate RouteFeasible(n: Node, r: Route) {
    UpdateFeasible(n.srcs, n.now, r.src, r.seqno, r.refmetric)
  }

  predicate RouteExpired(r: Route, now: int) {
    r.time < now - r.holdTime
  }

  /** update_source (section 3.7.3 of RFC 6126) */
  function UpdatedSource(s: Source, now: int, seqno: int, metric: nat): Source {
    if metric >= INFINITY then s
    else if Stale(s, now) || SeqnoCompare(Wire(s.seqno), Wire(seqno)) < 0
         || (Wire(s.seqno) == Wire(seqno) && s.metric > metric)
    then s.(seqno := seqno, metric := metric, time := now)
    else s.(time := now)
  }

  // ----- selection within a chain ---------------------------------------------------

  predicate Eligible(n: Node, r: Route, feasible: bool, exclude: Option<Neighbour>) {
    && !RouteExpired(r, n.now)
    && (!feasible || RouteFeasible(n, r))
    && (exclude.None? || r.neigh != exclude.value)
  }

  /** find_best_route: starts from the head whatever it is, and moves on to better eligible routes. */
  function BestFrom(n: Node, c: Chain, feasible: bool, exclude: Option<Neighbour>, i: nat, best: nat): (b: nat)
    requires best < |c| && i <= |c|
    ensures b < |c|
    decreases |c| - i
  {
    if i == |c| then best
    else if Eligible(n, c[i], feasible, exclude) && RouteMetric(c[i]) < RouteMetric(c[best])
    then BestFrom(n, c, feasible, exclude, i + 1, i)
    else BestFrom(n, c, feasible, exclude, i + 1, best)
  }

  function BestIndex(n: Node, c: Chain, feasible: bool, exclude: Option<Neighbour>): (b: nat)
    requires c != []
    ensures b < |c|
  {
    BestFrom(n, c, feasible, exclude, 1, 0)
  }

  /** move_installed_route, with the flag set. */
  function ToFront(c: Chain, j: nat): Chain
    requires j < |c|
  {
    [c[j].(installed := true)] + c[..j] + c[j + 1..]
  }

  /** install_route */
  function Installed(c: Chain, j: nat): Chain
    requires j < |c|
  {
    if c[j].installed || (j != 0 && c[0].installed) then c else ToFront(c, j)
  }

  /** switch_routes from the head to the route at `j`. */
  function Switched(c: Chain, j: nat): Chain
    requires j < |c|
  {
    ToFront(c[0 := c[0].(installed := false)], j)
  }

  /** An exported route keeps Babel routes to the same destination from being installed. */
  predicate Blocked(n: Node, d: Dest) {
    d in n.xroutes && (n.config.allowDuplicates < 0 || n.xroutes[d] >= n.config.allowDuplicates)
  }

  /** consider_route, as a change of the chain. */
  function Considered(n: Node, d: Dest, c: Chain, j: nat): (c': Chain)
    requires j < |c|
    ensures |c'| == |c|
  {
    var r := c[j];
    if r.installed || !RouteFeasible(n, r) || Blocked(n, d) then c
    else if !c[0].installed then Installed(c, j)
    else if RouteMetric(r) >= INFINITY then c
    else if RouteMetric(c[0]) >= INFINITY || RouteMetric(c[0]) >= RouteMetric(r) + 64 then Switched(c, j)
    else c
  }

  /** route_changed */
  function AfterChange(n: Node, d: Dest, c: Chain, j: nat, oldMetric: nat): (c': Chain)
    requires j < |c|
    ensures |c'| == |c|
  {
    if !c[j].installed then Considered(n, d, c, j)
    else if RouteMetric(c[j]) > oldMetric then
      var b := BestIndex(n, c, true, None);
      if RouteMetric(c[b]) <= RouteMetric(c[j]) - 96 then Considered(n, d, c, b) else c
    else c
  }

  /** route_lost */
  function AfterLoss(n: Node, d: Dest, c: Chain): (c': Chain)
    ensures |c'| == |c|
  {
    if c == [] then c else Considered(n, d, c, BestIndex(n, c, true, None))
  }

  // ----- sources --------------------------------------------------------------------

  /** find_source with creation. */
  function FoundSource(n: Node, key: SourceKey, seqno: int): Sources {
    if key in n.srcs then n.srcs else n.srcs[key := Source(seqno, INFINITY, n.now, 0)]
  }

  function Retained(srcs: Sources, key: SourceKey, delta: int): Sources {
    if key in srcs then srcs[key := srcs[key].(routeCount := srcs[key].routeCount + delta)] else srcs
  }

  // ----- operations -----------------------------------------------------------------

  function WithChain(n: Node, d: Dest, c: Chain): Node {
    if c == [] then n.(chains := n.chains - {d}) else n.(chains := n.chains[d := c])
  }

  /** find_route within a chain. */
  function FindRoute(c: Chain, neigh: Neighbour, nexthop: nat): (j: nat)
    ensures j <= |c|
    ensures j < |c| ==> c[j].neigh == neigh && c[j].nexthop == nexthop
    ensures forall i :: 0 <= i < j ==> !(c[i].neigh == neigh && c[i].nexthop == nexthop)
  {
    if c == [] then 0
    else if c[0].neigh == neigh && c[0].nexthop == nexthop then 0
    else 1 + FindRoute(c[1..], neigh, nexthop)
  }

  /** A received update, with the metric the input filter adds and the cost of the neighbour. */
  datatype Received = Received(id: nat, dest: Dest, seqno: int, refmetric: nat, interval: nat,
                               neigh: Neighbour, nexthop: nat, cost: nat, addMetric: nat)

  function KeyOf(m: Received): SourceKey {
    SourceKey(m.id, m.dest)
  }

  function HoldTime(interval: nat): nat {
    var h := 4 * interval / 100 + interval / 50;
    if h > 15 then h else 15
  }

  /** The route after an update to it has been recorded.  An unfeasible update that moves an
      installed route to another source uninstalls it; any other is recorded as it stands. */
  function Recorded(n: Node, r: Route, m: Received, feasible: bool): Route {
    r.(src := KeyOf(m), seqno := m.seqno, refmetric := m.refmetric, cost := m.cost % 0x1_0000,
       addMetric := m.addMetric, holdTime := HoldTime(m.interval),
       time := if (feasible || n.config.keepUnfeasible) && m.refmetric < INFINITY then n.now else r.time,
       installed := r.installed && (feasible || r.src == KeyOf(m)))
  }

  function NewRoute(n: Node, m: Received): Route {
    Route(KeyOf(m), m.seqno, m.refmetric, m.cost % 0x1_0000, m.addMetric, m.neigh, m.nexthop,
          n.now, HoldTime(m.interval), false)
  }

  /** The update concerns a route that is already in the chain, at `j`. */
  function UpdateKnown(n: Node, m: Received, j: nat): Node
    requires j < |ChainOf(n, m.dest)|
  {
    var c, key := ChainOf(n, m.dest), KeyOf(m);
    var n1 := n.(srcs := FoundSource(n, key, m.seqno));
    var feasible := UpdateFeasible(n1.srcs, n.now, key, m.seqno, m.refmetric);
    var r := Recorded(n, c[j], m, feasible);
    var lost := c[j].installed && !r.installed;
    var c1 := c[j := r];
    var n2 := n1.(srcs := Retained(n1.srcs, key, 1));
    var c2 := AfterChange(n2, m.dest, c1, j, RouteMetric(c[j]));
    var c3 := if lost then AfterLoss(n2, m.dest, c2) else c2;
    WithChain(n2.(srcs := Retained(n2.srcs, c[j].src, -1)), m.dest, c3)
  }

  /** The update announces a new route. */
  function UpdateNew(n: Node, m: Received): Node {
    var c, key := ChainOf(n, m.dest), KeyOf(m);
    var n1 := n.(srcs := FoundSource(n, key, m.seqno));
    var feasible := UpdateFeasible(n1.srcs, n.now, key, m.seqno, m.refmetric);
    if m.refmetric >= INFINITY || (!feasible && !n.config.keepUnfeasible) then n1
    else
      var n2 := n1.(srcs := Retained(n1.srcs, key, 1));
      var c1 := c + [NewRoute(n, m)];
      WithChain(n2, m.dest, Considered(n2, m.dest, c1, |c|))
  }

  /** update_route; `martian` is the verdict on the prefix. */
  function UpdateRoute(n: Node, m: Received, martian: bool): Node {
    if m.id == n.myid || martian || m.addMetric >= INFINITY then n
    else
      var c := ChainOf(n, m.dest);
      var j := FindRoute(c, m.neigh, m.nexthop);
      if j < |c| then UpdateKnown(n, m, j) else UpdateNew(n, m)
  }

  /** flush_route */
  function FlushRoute(n: Node, d: Dest, j: nat): Node
    requires j < |ChainOf(n, d)|
  {
    var c := ChainOf(n, d);
    var rest := c[..j] + c[j + 1..];
    var c1 := if c[j].installed then AfterLoss(n, d, rest) else rest;
    WithChain(n.(srcs := Retained(n.srcs, c[j].src, -1)), d, c1)
  }

  function WithMetric(r: Route, refmetric: nat, cost: nat, addMetric: nat): Route {
    r.(refmetric := refmetric, cost := cost % 0x1_0000, addMetric := addMetric)
  }

  /** An expired route is retracted with the sequence number after that of its source. */
  function Expired(srcs: Sources, r: Route): Route {
    var seqno := if r.src in srcs then srcs[r.src].seqno + 1 else r.seqno;
    WithMetric(r.(seqno := seqno), INFINITY, INFINITY, 0)
  }

  /** update_route_metric: retracts an expired route, or refreshes cost and filter metric. */
  function UpdateRouteMetric(n: Node, d: Dest, j: nat, cost: nat, addMetric: nat): Node
    requires j < |ChainOf(n, d)|
  {
    var c := ChainOf(n, d);
    var r, before := c[j], RouteMetric(c[j]);
    if RouteExpired(r, n.now) then
      if r.refmetric >= INFINITY then n
      else
        var c1 := c[j := Expired(n.srcs, r)];
        WithChain(n, d, if before < INFINITY then AfterChange(n, d, c1, j, before) else c1)
    else
      var c1 := c[j := WithMetric(r, r.refmetric, cost, addMetric % 0x1_0000)];
      WithChain(n, d, if RouteMetric(c1[j]) != before then AfterChange(n, d, c1, j, before) else c1)
  }

  /** What retract_neighbour_routes does to one route. */
  function RetractRoute(n: Node, d: Dest, j: nat): Node
    requires j < |ChainOf(n, d)|
  {
    var c := ChainOf(n, d);
    if c[j].refmetric == INFINITY then n
    else
      var before := RouteMetric(c[j]);
      var c1 := c[j := WithMetric(c[j], INFINITY, INFINITY, 0)];
      WithChain(n, d, if before != INFINITY then AfterChange(n, d, c1, j, before) else c1)
  }

  /** uninstall_route on the head of a chain. */
  function Uninstalled(c: Chain): Chain {
    if c == [] then c else c[0 := c[0].(installed := false)]
  }

  /** xroute_add_new_route with the metric the filter gave. */
  function AddXroute(n: Node, d: Dest, metric: nat, martian: bool): Node {
    if martian || metric >= INFINITY || (d in n.xroutes && n.xroutes[d] <= metric) then n
    else
      var n1 := n.(xroutes := n.xroutes[d := metric]);
      if ChainOf(n, d) != [] && (n.config.allowDuplicates < 0 || metric < n.config.allowDuplicates)
      then WithChain(n1, d, Uninstalled(ChainOf(n, d))) else n1
  }

  function FlushXroute(n: Node, d: Dest): Node {
    n.(xroutes := n.xroutes - {d})
  }

  /** How an update for a destination goes out on an interface: whether the installed route
      interferes with it, the diversity factor, whether split horizon holds it back, and the
      metric the output filter adds. */
  datatype SendMode = SendMode(interferes: bool, diversityFactor: nat, heldBack: bool, addMetric: nat)

  datatype Advert = Advert(id: nat, dest: Dest, seqno: int, metric: nat)

  function Sent(id: nat, d: Dest, seqno: int, metric: nat, mode: SendMode): Option<Advert> {
    if mode.addMetric >= INFINITY then None
    else Some(Advert(id, d, seqno, Min(metric + mode.addMetric, INFINITY)))
  }

  /** What flushupdates does for one destination: what it sends, and the feasibility distance it
      keeps for what it sends. */
  function Advertise(n: Node, d: Dest, mode: SendMode): (Node, Option<Advert>) {
    if d in n.xroutes && (!HasInstalled(n, d) || n.xroutes[d] <= n.config.kernelMetric) then
      (n, Sent(n.myid, d, n.myseqno, n.xroutes[d], mode))
    else if HasInstalled(n, d) then
      var r := ChainOf(n, d)[0];
      var metric := if mode.interferes then RouteMetric(r) else RouteMetricNoninterfering(r, mode.diversityFactor);
      if mode.heldBack || r.src !in n.srcs then (n, None)
      else (n.(srcs := n.srcs[r.src := UpdatedSource(n.srcs[r.src], n.now, r.seqno, metric)]),
            Sent(r.src.id, d, r.seqno, metric, mode))
    else (n, Sent(n.myid, d, n.myseqno, INFINITY, mode))
  }

  /** A source that is old and not in use. */
  predicate Disposable(s: Source, now: int) {
    Stale(s, now) && s.routeCount <= 0
  }

  /** expire_sources also pulls back a time that lies in the future. */
  function Swept(srcs: Sources, now: int): Sources {
    map key | key in srcs && !Disposable(srcs[key], now)
      :: srcs[key].(time := if srcs[key].time > now then now else srcs[key].time)
  }

  function ExpireSources(n: Node): Node {
    n.(srcs := Swept(n.srcs, n.now))
  }

  predicate HasInstalled(n: Node, d: Dest) {
    ChainOf(n, d) != [] && ChainOf(n, d)[0].installed
  }
}
