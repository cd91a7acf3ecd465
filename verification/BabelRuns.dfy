/** What holds of one Babel router in every state it can reach, whatever it receives and in whatever
    order its operations come; nothing is assumed about clocks, costs or sequence numbers. */
module BabelRuns {
  import opened BabelMetric
  import opened Seqno
  import opened BabelNode
  import opened BabelInvariants
  import opened BabelOperations
  import RequestWalk

  datatype Operation =
    | Receive(m: Received, martian: bool)
    | Flush(dest: Dest, j: nat)
    | ChangeMetric(dest: Dest, j: nat, cost: nat, addMetric: nat)
    | Retract(dest: Dest, j: nat)
    | Export(dest: Dest, metric: nat, martian: bool)
    | Unexport(dest: Dest)
    | Send(dest: Dest, mode: SendMode)
    | Expire
    | Request(from: Neighbour, q: RequestWalk.Request, redundant: bool)
    | Clock(now: int)

  predicate Enabled(n: Node, op: Operation) {
    match op
    case Flush(d, j) => j < |ChainOf(n, d)|
    case ChangeMetric(d, j, _, _) => j < |ChainOf(n, d)|
    case Retract(d, j) => j < |ChainOf(n, d)|
    case Request(_, q, _) => Is16(q.seqno)
    case _ => true
  }

  function Apply(n: Node, op: Operation): Node
    requires Enabled(n, op)
  {
    match op
    case Receive(m, martian) => UpdateRoute(n, m, martian)
    case Flush(d, j) => FlushRoute(n, d, j)
    case ChangeMetric(d, j, cost, addMetric) => UpdateRouteMetric(n, d, j, cost, addMetric)
    case Retract(d, j) => RetractRoute(n, d, j)
    case Export(d, metric, martian) => AddXroute(n, d, metric, martian)
    case Unexport(d) => FlushXroute(n, d)
    case Send(d, mode) => Advertise(n, d, mode).0
    case Expire => ExpireSources(n)
    case Request(from, q, redundant) => RequestWalk.HandleRequest(n, from, q, redundant).0
    case Clock(now) => n.(now := now)
  }

  ghost predicate Reaches(n: Node, ops: seq<Operation>, n': Node)
    decreases ops
  {
    if ops == [] then n' == n else Enabled(n, ops[0]) && Reaches(Apply(n, ops[0]), ops[1..], n')
  }

  /** A router that has not received anything; what it exports is free. */
  predicate Initial(n: Node) {
    n.chains == map[] && n.srcs == map[]
  }

  lemma OperationKeeps(n: Node, op: Operation)
    requires NodeInv(n) && Enabled(n, op)
    ensures NodeInv(Apply(n, op)) && Apply(n, op).config == n.config
  {
    OperationKeepsConfig(n, op);
    hide NodeInv, LocalStep;
    match op {
      case Receive(m, martian) => UpdateRouteKeeps(n, m, martian);
      case Flush(d, j) => FlushRouteKeeps(n, d, j);
      case ChangeMetric(d, j, cost, addMetric) => UpdateRouteMetricKeeps(n, d, j, cost, addMetric);
      case Retract(d, j) => RetractRouteKeeps(n, d, j);
      case Export(d, metric, martian) => AddXrouteInv(n, d, metric, martian);
      case Unexport(d) => FlushXrouteKeeps(n, d);
      case Send(d, mode) => AdvertiseInv(n, d, mode);
      case Expire => ExpireSourcesInv(n);
      case Request(from, q, redundant) =>
        RequestWalk.HandlingFacts(n, from, q, redundant);
        ScalarsInv(n, n.now, Apply(n, op).myseqno);
      case Clock(now) => ScalarsInv(n, now, n.myseqno);
    }
  }

  lemma OperationKeepsConfig(n: Node, op: Operation)
    requires Enabled(n, op)
    ensures Apply(n, op).config == n.config
  {
    hide AfterChange, AfterLoss, Considered, UpdateFeasible, Recorded, Retained, FoundSource, ChainOf, FindRoute;
    hide Swept, Uninstalled, UpdatedSource, Expired, WithMetric, RouteMetric;
  }

  /** Main result about one router: in every reachable state its chains are well formed with one
      installed route at most, at the head; every source counts exactly the routes that point to it,
      none of which has lost its source; and with duplicates forbidden no destination is exported
      and installed at once. */
  lemma {:induction false} ReachableInv(n: Node, ops: seq<Operation>, n': Node)
    requires NodeInv(n) && Reaches(n, ops, n')
    ensures NodeInv(n') && n'.config == n.config
    decreases ops
  {
    if ops != [] {
      OperationKeeps(n, ops[0]);
      hide NodeInv, Apply, Enabled;
      ReachableInv(Apply(n, ops[0]), ops[1..], n');
    }
  }

  lemma InitialInv(n: Node)
    requires Initial(n)
    ensures NodeInv(n)
  {
    assert forall d :: ChainOf(n, d) == [];
  }

  /** Exclusion of exported and installed routes. */
  lemma NeverBoth(n: Node, ops: seq<Operation>, n': Node, d: Dest)
    requires Initial(n) && Reaches(n, ops, n') && n.config.allowDuplicates < 0
    ensures !(d in n'.xroutes && HasInstalled(n', d))
  {
    InitialInv(n);
    ReachableInv(n, ops, n');
  }

  /** Reference counts are exact, and a source in use is there. */
  lemma CountsAlwaysExact(n: Node, ops: seq<Operation>, n': Node, key: SourceKey)
    requires Initial(n) && Reaches(n, ops, n')
    ensures key in n'.srcs ==> n'.srcs[key].routeCount == CountSrc(ChainOf(n', key.dest), key)
    ensures forall i :: 0 <= i < |ChainOf(n', key.dest)| ==> ChainOf(n', key.dest)[i].src in n'.srcs
  {
    InitialInv(n);
    ReachableInv(n, ops, n');
    var c := ChainOf(n', key.dest);
    forall i | 0 <= i < |c| ensures c[i].src in n'.srcs {
      assert ChainOk(n', key.dest, c);
      assert RouteOk(n', key.dest, c[i]);
    }
  }

  // ----- a feasible route passed over, from the start -------------------------------

  const LOST_START := Node(0, 0, 0, Config(false, -1, 0), map[], map[], map[])

  function LostUpdate(refmetric: nat, from: nat, cost: nat): Operation {
    Receive(Received(1, LOST_DEST, 1, refmetric, 0, Neighbour(from, 0), from, cost, 0), false)
  }

  /** Three updates for one destination are received, and the route is advertised. */
  const LOST_RUN := [LostUpdate(4, 2, 1), LostUpdate(10, 3, 1), LostUpdate(4, 4, 100),
                     Send(LOST_DEST, SendMode(true, 0, false, 0))]

  function LostAfter(c: Chain, count: int): Node {
    LOST_START.(chains := map[LOST_DEST := c], srcs := map[LOST_KEY := Source(1, INFINITY, 0, count)])
  }

  lemma LostFirst()
    ensures Apply(LOST_START, LOST_RUN[0]) == LostAfter([LOST_INSTALLED], 1)
  {
    var c := [LOST_INSTALLED.(installed := false)];
    assert [] + c == c && ToFront(c, 0) == [LOST_INSTALLED];
  }

  /** A route that is no better is added at the end. */
  lemma LostNext(c: Chain, r: Route, refmetric: nat, from: nat, cost: nat)
    requires c != [] && c[0] == LOST_INSTALLED && from > 0 && cost < 0x1_0000 && refmetric < INFINITY
    requires forall i :: 0 <= i < |c| ==> c[i].neigh.router != from
    requires r == Route(LOST_KEY, 1, refmetric, cost, 0, Neighbour(from, 0), from, 0, 15, false)
    ensures Apply(LostAfter(c, |c|), LostUpdate(refmetric, from, cost)) == LostAfter(c + [r], |c| + 1)
  {
    var n, m := LostAfter(c, |c|), LostUpdate(refmetric, from, cost).m;
    var j := FindRoute(ChainOf(n, LOST_DEST), m.neigh, m.nexthop);
    assert ChainOf(n, LOST_DEST) == c && j == |c|;
    var n2 := n.(srcs := n.srcs[LOST_KEY := Source(1, INFINITY, 0, |c| + 1)]);
    assert (c + [r])[0] == LOST_INSTALLED && (c + [r])[|c|] == r;
    assert Considered(n2, LOST_DEST, c + [r], |c|) == c + [r];
    hide Considered, FindRoute;
    assert n.srcs[LOST_KEY := Source(1, INFINITY, 0, |c| + 1)] == map[LOST_KEY := Source(1, INFINITY, 0, |c| + 1)];
    assert n.chains[LOST_DEST := c + [r]] == map[LOST_DEST := c + [r]];
  }

  lemma LostSent()
    ensures Apply(LostAfter([LOST_INSTALLED, LOST_UNFEASIBLE, LOST_FEASIBLE], 3), LOST_RUN[3]) == LOST_NODE
  {
    var n := LostAfter([LOST_INSTALLED, LOST_UNFEASIBLE, LOST_FEASIBLE], 3);
    assert n.srcs[LOST_KEY := Source(1, 5, 0, 3)] == LOST_NODE.srcs;
  }

  lemma ReachesInStep(n: Node, ops: seq<Operation>, n1: Node, n': Node)
    requires ops != [] && Enabled(n, ops[0]) && Apply(n, ops[0]) == n1 && Reaches(n1, ops[1..], n')
    ensures Reaches(n, ops, n')
  {
    hide Apply, Enabled;
  }

  /** The router of `LossPassesOver` is one that a router with empty tables comes to; when it then
      loses its route, it is left without one. */
  lemma LossIsReachable()
    ensures Initial(LOST_START) && Reaches(LOST_START, LOST_RUN, LOST_NODE)
    ensures Enabled(LOST_NODE, Flush(LOST_DEST, 0)) && !HasInstalled(Apply(LOST_NODE, Flush(LOST_DEST, 0)), LOST_DEST)
  {
    LossPassesOver();
    LostRun(LOST_RUN);
  }

  lemma LostRun(r: seq<Operation>)
    requires r == LOST_RUN
    ensures Reaches(LOST_START, r, LOST_NODE)
  {
    var a, b, c := LOST_INSTALLED, LOST_UNFEASIBLE, LOST_FEASIBLE;
    LostFirst();
    LostNext([a], b, 10, 3, 1);
    LostNext([a, b], c, 4, 4, 100);
    LostSent();
    assert [a] + [b] == [a, b] && [a, b] + [c] == [a, b, c];
    hide Apply, LostAfter, Reaches;
    assert Reaches(LOST_NODE, [], LOST_NODE) by { NothingToDo(LOST_NODE); }
    assert r[3..][1..] == [] && r[2..][1..] == r[3..] && r[1..][1..] == r[2..];
    ReachesInStep(LostAfter([a, b, c], 3), r[3..], LOST_NODE, LOST_NODE);
    ReachesInStep(LostAfter([a, b], 2), r[2..], LostAfter([a, b, c], 3), LOST_NODE);
    ReachesInStep(LostAfter([a], 1), r[1..], LostAfter([a, b], 2), LOST_NODE);
    ReachesInStep(LOST_START, r, LostAfter([a], 1), LOST_NODE);
  }

  lemma NothingToDo(n: Node)
    ensures Reaches(n, [], n)
  {
  }
}
