/** What every operation of a Babel router keeps: the shape of its chains, exact reference counts
    of its sources, and the exclusion of exported and installed routes. */
module BabelInvariants {
  import opened Wrappers
  import opened BabelMetric
  import opened BabelNode

  // ----- chains ---------------------------------------------------------------------

  /** Only the head of a chain may be installed. */
  predicate HeadOnly(c: Chain) {
    forall i :: 0 < i < |c| ==> !c[i].installed
  }

  function Bare(r: Route): Route {
    r.(installed := false)
  }

  function BareSeq(c: Chain): seq<Route> {
    seq(|c|, i requires 0 <= i < |c| => Bare(c[i]))
  }

  /** The routes of a chain, installed flags and order apart. */
  function Routes(c: Chain): multiset<Route> {
    multiset(BareSeq(c))
  }

  predicate HeadInstalled(c: Chain) {
    c != [] && c[0].installed
  }

  /** What is installed in `c'` was installed in `c`, or is feasible and not kept out by an
      exported route. */
  predicate HeadJustified(n: Node, d: Dest, c: Chain, c': Chain) {
    HeadInstalled(c') ==>
      || (HeadInstalled(c) && Bare(c[0]) == Bare(c'[0]))
      || (RouteFeasible(n, c'[0]) && !Blocked(n, d))
  }

  function CountSrc(c: Chain, key: SourceKey): nat {
    if c == [] then 0 else (if c[0].src == key then 1 else 0) + CountSrc(c[1..], key)
  }

  lemma {:induction false} CountConcat(a: Chain, b: Chain, key: SourceKey)
    ensures CountSrc(a + b, key) == CountSrc(a, key) + CountSrc(b, key)
  {
    if a == [] {
      assert a + b == b;
    } else {
      CountConcat(a[1..], b, key);
      assert (a + b)[1..] == a[1..] + b;
    }
  }

  lemma CountAt(c: Chain, j: nat, key: SourceKey)
    requires j < |c|
    ensures CountSrc(c, key) == CountSrc(c[..j], key) + (if c[j].src == key then 1 else 0) + CountSrc(c[j + 1..], key)
  {
    assert c == c[..j] + ([c[j]] + c[j + 1..]);
    CountConcat(c[..j], [c[j]] + c[j + 1..], key);
    assert ([c[j]] + c[j + 1..])[1..] == c[j + 1..];
  }

  lemma CountReplace(c: Chain, j: nat, r: Route, key: SourceKey)
    requires j < |c|
    ensures CountSrc(c[j := r], key)
         == CountSrc(c, key) - (if c[j].src == key then 1 else 0) + (if r.src == key then 1 else 0)
  {
    CountAt(c, j, key);
    CountAt(c[j := r], j, key);
    assert c[j := r][..j] == c[..j] && c[j := r][j + 1..] == c[j + 1..];
  }

  lemma CountRemove(c: Chain, j: nat, key: SourceKey)
    requires j < |c|
    ensures CountSrc(c[..j] + c[j + 1..], key) == CountSrc(c, key) - (if c[j].src == key then 1 else 0)
  {
    CountAt(c, j, key);
    CountConcat(c[..j], c[j + 1..], key);
  }

  lemma CountToFront(c: Chain, j: nat, key: SourceKey)
    requires j < |c|
    ensures CountSrc(ToFront(c, j), key) == CountSrc(c, key)
  {
    var f := c[j].(installed := true);
    CountAt(c, j, key);
    assert ToFront(c, j) == [f] + (c[..j] + c[j + 1..]);
    assert ([f] + (c[..j] + c[j + 1..]))[1..] == c[..j] + c[j + 1..];
    CountConcat(c[..j], c[j + 1..], key);
  }

  // ----- the best route -------------------------------------------------------------

  lemma {:induction false} BestFromIsMinimal(n: Node, c: Chain, feasible: bool, exclude: Option<Neighbour>, i: nat, best: nat)
    requires best < i <= |c|
    ensures var b := BestFrom(n, c, feasible, exclude, i, best);
            && (b == best || (b >= i && Eligible(n, c[b], feasible, exclude) && RouteMetric(c[b]) < RouteMetric(c[best])))
            && RouteMetric(c[b]) <= RouteMetric(c[best])
            && (forall k :: i <= k < |c| && Eligible(n, c[k], feasible, exclude) ==>
                  RouteMetric(c[b]) <= RouteMetric(c[k]) && (k < b ==> RouteMetric(c[b]) < RouteMetric(c[k])))
    decreases |c| - i
  {
    hide Eligible, RouteMetric;
    if i < |c| {
      BestFromIsMinimal(n, c, feasible, exclude, i + 1, i);
      BestFromIsMinimal(n, c, feasible, exclude, i + 1, best);
    }
  }

  /** No eligible route has a smaller metric than the one found, and it is the first such; but the
      head of the chain is taken, eligible or not, unless an eligible route is better. */
  lemma BestIsMinimal(n: Node, c: Chain, feasible: bool, exclude: Option<Neighbour>)
    requires c != []
    ensures var b := BestIndex(n, c, feasible, exclude);
            && (b == 0 <==> forall k :: 0 < k < |c| && Eligible(n, c[k], feasible, exclude) ==>
                              RouteMetric(c[k]) >= RouteMetric(c[0]))
            && (b > 0 ==> Eligible(n, c[b], feasible, exclude))
            && (forall k :: 0 < k < |c| && Eligible(n, c[k], feasible, exclude) ==>
                  RouteMetric(c[b]) <= RouteMetric(c[k]) && (k < b ==> RouteMetric(c[b]) < RouteMetric(c[k])))
  {
    hide Eligible, RouteMetric, BestFrom;
    BestFromIsMinimal(n, c, feasible, exclude, 1, 0);
  }

  predicate BetterThanHead(n: Node, c: Chain, feasible: bool, exclude: Option<Neighbour>) {
    exists k :: 0 < k < |c| && Eligible(n, c[k], feasible, exclude) && RouteMetric(c[k]) < RouteMetric(c[0])
  }

  /** find_best_route gives an eligible route exactly when the head is one, or one is better than
      the head; so an eligible route can be there and not be found. */
  lemma BestIsEligible(n: Node, c: Chain, feasible: bool, exclude: Option<Neighbour>)
    requires c != []
    ensures Eligible(n, c[BestIndex(n, c, feasible, exclude)], feasible, exclude) <==>
              Eligible(n, c[0], feasible, exclude) || BetterThanHead(n, c, feasible, exclude)
  {
    BestIsMinimal(n, c, feasible, exclude);
    hide Eligible, RouteMetric, BestIndex;
  }

  // ----- reordering -----------------------------------------------------------------

  /** What a reselection may do to a chain. */
  ghost predicate Reselected(n: Node, d: Dest, c: Chain, c': Chain) {
    && |c'| == |c|
    && Routes(c') == Routes(c)
    && (HeadOnly(c) ==> HeadOnly(c'))
    && HeadJustified(n, d, c, c')
    && (forall key :: CountSrc(c', key) == CountSrc(c, key))
  }

  lemma ReselectedSame(n: Node, d: Dest, c: Chain)
    ensures Reselected(n, d, c, c)
  {
  }

  lemma RoutesSplit(c: Chain, j: nat)
    requires j < |c|
    ensures Routes(c) == Routes(c[..j]) + multiset{Bare(c[j])} + Routes(c[j + 1..])
  {
    assert BareSeq(c) == BareSeq(c[..j]) + [Bare(c[j])] + BareSeq(c[j + 1..]);
  }

  lemma RoutesConcat(a: Chain, b: Chain)
    ensures Routes(a + b) == Routes(a) + Routes(b)
  {
    assert BareSeq(a + b) == BareSeq(a) + BareSeq(b);
  }

  lemma ToFrontRoutes(c: Chain, j: nat)
    requires j < |c|
    ensures Routes(ToFront(c, j)) == Routes(c)
  {
    var f := c[j].(installed := true);
    RoutesSplit(c, j);
    RoutesConcat(c[..j], c[j + 1..]);
    assert ToFront(c, j) == [f] + (c[..j] + c[j + 1..]);
    RoutesConcat([f], c[..j] + c[j + 1..]);
    assert BareSeq([f]) == [Bare(f)];
  }

  lemma ToFrontFacts(c: Chain, j: nat)
    requires j < |c|
    ensures |ToFront(c, j)| == |c| && Routes(ToFront(c, j)) == Routes(c)
    ensures ToFront(c, j)[0] == c[j].(installed := true)
    ensures !c[0].installed && HeadOnly(c) ==> HeadOnly(ToFront(c, j))
    ensures forall key :: CountSrc(ToFront(c, j), key) == CountSrc(c, key)
  {
    hide CountSrc, Routes;
    var t := ToFront(c, j);
    ToFrontRoutes(c, j);
    assert forall i :: 0 < i < |t| ==> t[i] == if i <= j then c[i - 1] else c[i];
    forall key ensures CountSrc(t, key) == CountSrc(c, key) {
      CountToFront(c, j, key);
    }
  }

  lemma InstalledReselects(n: Node, d: Dest, c: Chain, j: nat)
    requires j < |c| && !c[0].installed && !c[j].installed && RouteFeasible(n, c[j]) && !Blocked(n, d)
    ensures Reselected(n, d, c, Installed(c, j))
  {
    ToFrontFacts(c, j);
    assert RouteFeasible(n, c[j].(installed := true));
    hide CountSrc, HeadOnly, ToFront, RouteFeasible;
  }

  lemma SwitchedReselects(n: Node, d: Dest, c: Chain, j: nat)
    requires 0 < j < |c| && RouteFeasible(n, c[j]) && !Blocked(n, d)
    ensures Reselected(n, d, c, Switched(c, j))
  {
    var c1 := c[0 := c[0].(installed := false)];
    assert Routes(c1) == Routes(c) by { assert BareSeq(c1) == BareSeq(c); }
    assert HeadOnly(c) ==> HeadOnly(c1);
    ToFrontFacts(c1, j);
    forall key ensures CountSrc(c1, key) == CountSrc(c, key) {
      CountReplace(c, 0, c1[0], key);
    }
    assert RouteFeasible(n, c[j].(installed := true));
    hide CountSrc, HeadOnly, ToFront, RouteFeasible, Routes;
  }

  lemma ReselectedTransitive(n: Node, d: Dest, a: Chain, b: Chain, c: Chain)
    requires Reselected(n, d, a, b) && Reselected(n, d, b, c)
    ensures Reselected(n, d, a, c)
  {
    hide CountSrc, HeadOnly, Routes;
    if HeadInstalled(c) && HeadInstalled(b) && Bare(b[0]) == Bare(c[0]) {
      assert RouteFeasible(n, b[0]) <==> RouteFeasible(n, c[0]);
    }
  }

  lemma ConsideredReselects(n: Node, d: Dest, c: Chain, j: nat)
    requires j < |c|
    ensures Reselected(n, d, c, Considered(n, d, c, j))
  {
    hide Reselected, RouteFeasible, Installed, Switched;
    ReselectedSame(n, d, c);
    if !c[j].installed && RouteFeasible(n, c[j]) && !Blocked(n, d) {
      if !c[0].installed {
        InstalledReselects(n, d, c, j);
      } else {
        SwitchedReselects(n, d, c, j);
      }
    }
  }

  lemma AfterChangeReselects(n: Node, d: Dest, c: Chain, j: nat, oldMetric: nat)
    requires j < |c|
    ensures Reselected(n, d, c, AfterChange(n, d, c, j, oldMetric))
  {
    hide Reselected, Considered, BestIndex;
    ReselectedSame(n, d, c);
    ConsideredReselects(n, d, c, j);
    ConsideredReselects(n, d, c, BestIndex(n, c, true, None));
  }

  lemma AfterLossReselects(n: Node, d: Dest, c: Chain)
    ensures Reselected(n, d, c, AfterLoss(n, d, c))
  {
    hide Reselected, Considered, BestIndex;
    ReselectedSame(n, d, c);
    if c != [] {
      ConsideredReselects(n, d, c, BestIndex(n, c, true, None));
    }
  }

  // ----- what a reselection achieves ------------------------------------------------

  lemma InstalledHead(c: Chain, j: nat)
    requires j < |c|
    ensures Installed(c, j) == c || Installed(c, j)[0] == c[j].(installed := true)
    ensures !c[0].installed && !c[j].installed ==> Installed(c, j)[0] == c[j].(installed := true)
    ensures Switched(c, j)[0] == c[0 := c[0].(installed := false)][j].(installed := true)
  {
  }

  /** consider_route never leaves a destination without a route that had one; where none was
      installed the route is installed exactly when it is feasible and not kept out; and it replaces
      a finite route only by one that is better by 64 at least. */
  lemma ConsideredOutcome(n: Node, d: Dest, c: Chain, j: nat)
    requires j < |c| && HeadOnly(c)
    ensures var c' := Considered(n, d, c, j);
            && (HeadInstalled(c) ==> HeadInstalled(c'))
            && (!HeadInstalled(c) ==> (HeadInstalled(c') <==> RouteFeasible(n, c[j]) && !Blocked(n, d)))
            && (HeadInstalled(c) && c' != c ==>
                  && Bare(c'[0]) == Bare(c[j]) && RouteFeasible(n, c[j]) && !Blocked(n, d)
                  && RouteMetric(c[j]) < INFINITY
                  && (RouteMetric(c[0]) >= INFINITY || RouteMetric(c[0]) >= RouteMetric(c[j]) + 64))
  {
    InstalledHead(c, j);
    hide RouteFeasible, Installed, Switched, RouteMetric, Blocked;
  }

  /** route_lost installs a route exactly when the head is feasible, or an eligible route is better
      than the head, whatever the head is; and no exported route keeps it out. */
  lemma LossOutcome(n: Node, d: Dest, c: Chain)
    requires HeadOnly(c) && !HeadInstalled(c)
    ensures HeadInstalled(AfterLoss(n, d, c)) <==>
              && c != [] && !Blocked(n, d)
              && (RouteFeasible(n, c[0]) || BetterThanHead(n, c, true, None))
  {
    if c != [] {
      var b := BestIndex(n, c, true, None);
      ConsideredOutcome(n, d, c, b);
      BestIsMinimal(n, c, true, None);
      hide Considered, BestIndex, Blocked, UpdateFeasible, RouteMetric;
    }
  }

  /** After the installed route got worse and route_changed has looked for another, no feasible
      route that has not expired is better than the installed one by 96 or more, unless an exported
      route keeps it out. */
  lemma ChangeOutcome(n: Node, d: Dest, c: Chain, oldMetric: nat, k: nat)
    requires HeadInstalled(c) && HeadOnly(c) && RouteMetric(c[0]) > oldMetric && !Blocked(n, d)
    requires 0 < k < |c| && Eligible(n, c[k], true, None)
    ensures var c' := AfterChange(n, d, c, 0, oldMetric);
            HeadInstalled(c') && RouteMetric(c[k]) > RouteMetric(c'[0]) - 96
  {
    var b := BestIndex(n, c, true, None);
    BestIsMinimal(n, c, true, None);
    InstalledHead(c, b);
    assert RouteMetric(c[0]) <= INFINITY;
    assert b > 0 ==> RouteFeasible(n, c[b]);
    assert forall r: Route :: RouteMetric(r.(installed := true)) == RouteMetric(r);
    hide RouteFeasible, BestIndex, RouteMetric, Installed, Switched, Blocked, Eligible;
  }

  // ----- the node -------------------------------------------------------------------

  predicate RouteOk(n: Node, d: Dest, r: Route) {
    r.src.dest == d && r.src in n.srcs && r.src.id != n.myid
  }

  predicate ChainOk(n: Node, d: Dest, c: Chain) {
    HeadOnly(c) && forall i :: 0 <= i < |c| ==> RouteOk(n, d, c[i])
  }

  /** The representation invariant: no empty chain, routes in the chain of their destination with
      a known source that is not the node itself, and at most one installed route per chain, at
      its head. */
  predicate ChainsOk(n: Node) {
    forall d :: d in n.chains ==> n.chains[d] != [] && ChainOk(n, d, n.chains[d])
  }

  /** Each source counts exactly the routes that point to it. */
  predicate CountsExact(n: Node) {
    forall key :: key in n.srcs ==> n.srcs[key].routeCount == CountSrc(ChainOf(n, key.dest), key)
  }

  /** With allow_duplicates negative nothing is both exported and installed. */
  predicate Excluded(n: Node) {
    n.config.allowDuplicates < 0 ==> forall d :: d in n.xroutes ==> !HasInstalled(n, d)
  }

  predicate NodeInv(n: Node) {
    ChainsOk(n) && CountsExact(n) && Excluded(n)
  }

  // ----- what one operation may change ----------------------------------------------

  /** Feasibility distances are kept; new sources may appear. */
  predicate FdsKept(s: Sources, s': Sources) {
    forall key :: key in s ==>
      key in s' && s'[key].seqno == s[key].seqno && s'[key].metric == s[key].metric && s'[key].time == s[key].time
  }

  /** `r'` says about its neighbour what `r` said, or is a retraction. */
  predicate Descends(r: Route, r': Route) {
    && r.src == r'.src && r.neigh == r'.neigh
    && (r'.refmetric >= INFINITY || (r'.seqno == r.seqno && r'.refmetric == r.refmetric))
  }

  /** `r'` says what the received update said. */
  predicate Carries(m: Option<Received>, r': Route) {
    && m.Some? && r'.src == KeyOf(m.value) && r'.neigh == m.value.neigh
    && r'.seqno == m.value.seqno && r'.refmetric == m.value.refmetric
  }

  ghost predicate Sourced(c: Chain, m: Option<Received>, r': Route) {
    Carries(m, r') || exists i :: 0 <= i < |c| && Descends(c[i], r')
  }

  predicate SameHop(r: Route, r': Route) {
    r.src == r'.src && r.neigh == r'.neigh
  }

  /** An operation other than an advertisement: distances are kept, routes come from old routes
      or from the received update, and whatever is newly installed is feasible. */
  ghost predicate LocalStep(n: Node, n': Node, m: Option<Received>) {
    && n'.myid == n.myid && n'.now == n.now
    && FdsKept(n.srcs, n'.srcs)
    && (forall d, i :: 0 <= i < |ChainOf(n', d)| ==> Sourced(ChainOf(n, d), m, ChainOf(n', d)[i]))
    && (forall d :: HasInstalled(n', d) ==>
          || (HasInstalled(n, d) && SameHop(ChainOf(n, d)[0], ChainOf(n', d)[0]))
          || RouteFeasible(n', ChainOf(n', d)[0]))
  }

  /** A chain edited in place, before any reselection. */
  ghost predicate EditedChain(n: Node, d: Dest, srcs: Sources, c: Chain, m: Option<Received>) {
    var e := n.(srcs := srcs);
    && ChainOk(e, d, c)
    && (forall i :: 0 <= i < |c| ==> Sourced(ChainOf(n, d), m, c[i]))
    && (HeadInstalled(c) ==>
          HasInstalled(n, d) && (SameHop(ChainOf(n, d)[0], c[0]) || RouteFeasible(e, c[0])))
  }

  predicate EditedCounts(n: Node, d: Dest, srcs: Sources, c: Chain) {
    forall key :: key in srcs ==>
      srcs[key].routeCount == CountSrc(if key.dest == d then c else ChainOf(n, key.dest), key)
  }

  ghost predicate Edited(n: Node, d: Dest, srcs: Sources, c: Chain, m: Option<Received>) {
    FdsKept(n.srcs, srcs) && EditedChain(n, d, srcs, c, m) && EditedCounts(n, d, srcs, c)
  }

  lemma RoutesMember(c: Chain, c': Chain, i: nat) returns (k: nat)
    requires Routes(c') == Routes(c) && i < |c'|
    ensures k < |c| && Bare(c[k]) == Bare(c'[i])
  {
    assert BareSeq(c')[i] in Routes(c');
    k :| k < |BareSeq(c)| && BareSeq(c)[k] == Bare(c'[i]);
  }

  lemma SourcedBare(c: Chain, m: Option<Received>, r: Route, r': Route)
    requires Sourced(c, m, r) && Bare(r) == Bare(r')
    ensures Sourced(c, m, r')
  {
    if !Carries(m, r) {
      var i :| 0 <= i < |c| && Descends(c[i], r);
      assert Descends(c[i], r');
    }
  }

  lemma EditedRoutes(n: Node, d: Dest, srcs: Sources, c: Chain, c': Chain, m: Option<Received>)
    requires Edited(n, d, srcs, c, m) && Reselected(n.(srcs := srcs), d, c, c')
    ensures ChainOk(n.(srcs := srcs), d, c')
    ensures forall i :: 0 <= i < |c'| ==> Sourced(ChainOf(n, d), m, c'[i])
  {
    var e := n.(srcs := srcs);
    forall i | 0 <= i < |c'| ensures RouteOk(e, d, c'[i]) && Sourced(ChainOf(n, d), m, c'[i]) {
      var k := RoutesMember(c, c', i);
      assert RouteOk(e, d, c[k]);
      SourcedBare(ChainOf(n, d), m, c[k], c'[i]);
    }
  }

  lemma WithChainOf(n: Node, d: Dest, c: Chain, x: Dest)
    ensures ChainOf(WithChain(n, d, c), x) == if x == d then c else ChainOf(n, x)
  {
  }

  lemma EditedInv(n: Node, d: Dest, srcs: Sources, c: Chain, c': Chain, m: Option<Received>)
    requires NodeInv(n) && Edited(n, d, srcs, c, m) && Reselected(n.(srcs := srcs), d, c, c')
    ensures NodeInv(WithChain(n.(srcs := srcs), d, c'))
  {
    var e := n.(srcs := srcs);
    var n' := WithChain(e, d, c');
    EditedRoutes(n, d, srcs, c, c', m);
    forall x | x in n'.chains ensures n'.chains[x] != [] && ChainOk(n', x, n'.chains[x]) {
      WithChainOf(e, d, c', x);
      if x != d {
        assert ChainOk(n, x, n.chains[x]);
      }
    }
    forall key | key in n'.srcs ensures n'.srcs[key].routeCount == CountSrc(ChainOf(n', key.dest), key) {
      WithChainOf(e, d, c', key.dest);
    }
    forall x | n.config.allowDuplicates < 0 && x in n'.xroutes ensures !HasInstalled(n', x) {
      WithChainOf(e, d, c', x);
      assert !HasInstalled(n, x);
    }
  }

  lemma EditedStep(n: Node, d: Dest, srcs: Sources, c: Chain, c': Chain, m: Option<Received>)
    requires NodeInv(n) && Edited(n, d, srcs, c, m) && Reselected(n.(srcs := srcs), d, c, c')
    ensures LocalStep(n, WithChain(n.(srcs := srcs), d, c'), m)
  {
    var e := n.(srcs := srcs);
    var n' := WithChain(e, d, c');
    EditedRoutes(n, d, srcs, c, c', m);
    forall x, i | 0 <= i < |ChainOf(n', x)| ensures Sourced(ChainOf(n, x), m, ChainOf(n', x)[i]) {
      WithChainOf(e, d, c', x);
      if x != d {
        assert Descends(ChainOf(n, x)[i], ChainOf(n', x)[i]);
      }
    }
    forall x | HasInstalled(n', x)
      ensures || (HasInstalled(n, x) && SameHop(ChainOf(n, x)[0], ChainOf(n', x)[0]))
              || RouteFeasible(n', ChainOf(n', x)[0])
    {
      WithChainOf(e, d, c', x);
      if x == d && !RouteFeasible(e, c'[0]) {
        assert HeadInstalled(c) && Bare(c[0]) == Bare(c'[0]);
        assert RouteFeasible(e, c[0]) <==> RouteFeasible(e, c'[0]);
      }
    }
  }

  // ----- a feasible route passed over -----------------------------------------------

  const LOST_DEST := Dest(0, 0)
  const LOST_KEY := SourceKey(1, LOST_DEST)
  const LOST_INSTALLED := Route(LOST_KEY, 1, 4, 1, 0, Neighbour(2, 0), 2, 0, 15, true)
  const LOST_UNFEASIBLE := Route(LOST_KEY, 1, 10, 1, 0, Neighbour(3, 0), 3, 0, 15, false)
  const LOST_FEASIBLE := Route(LOST_KEY, 1, 4, 100, 0, Neighbour(4, 0), 4, 0, 15, false)

  /** A router whose distance to the source is (1, 5), with an installed route, one announced with
      metric 10 over a link of cost 1, and one announced with metric 4 over a link of cost 100. */
  const LOST_NODE := Node(0, 0, 0, Config(false, -1, 0),
                          map[LOST_DEST := [LOST_INSTALLED, LOST_UNFEASIBLE, LOST_FEASIBLE]],
                          map[LOST_KEY := Source(1, 5, 0, 3)], map[])

  /** When the installed route goes, nothing is installed, although the last route is feasible, has
      not expired, and is kept out by nothing: the unfeasible head has the smaller metric. */
  lemma LossPassesOver()
    ensures NodeInv(LOST_NODE) && HasInstalled(LOST_NODE, LOST_DEST) && !Blocked(LOST_NODE, LOST_DEST)
    ensures Eligible(LOST_NODE, LOST_FEASIBLE, true, None) && RouteMetric(LOST_FEASIBLE) < INFINITY
    ensures ChainOf(FlushRoute(LOST_NODE, LOST_DEST, 0), LOST_DEST) == [LOST_UNFEASIBLE, LOST_FEASIBLE]
  {
    var n, d, c := LOST_NODE, LOST_DEST, ChainOf(LOST_NODE, LOST_DEST);
    LostCounts();
    forall i | 0 <= i < |c| ensures RouteOk(n, d, c[i]) {
    }
    var rest := c[..0] + c[1..];
    assert rest == [LOST_UNFEASIBLE, LOST_FEASIBLE];
    assert !RouteFeasible(n, rest[0]) && RouteFeasible(n, rest[1]);
    BestIsMinimal(n, rest, true, None);
  }

  lemma LostCounts()
    ensures CountsExact(LOST_NODE)
  {
    var c := ChainOf(LOST_NODE, LOST_DEST);
    assert c[1..] == [LOST_UNFEASIBLE, LOST_FEASIBLE] && c[1..][1..] == [LOST_FEASIBLE];
    assert c[1..][1..][1..] == [];
    assert CountSrc(c[1..][1..], LOST_KEY) == 1;
    assert CountSrc(c[1..], LOST_KEY) == 2;
  }
}
