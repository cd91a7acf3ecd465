/** Every operation of a Babel router keeps its invariant, and is a `LocalStep`. */
module BabelOperations {
  import opened Wrappers
  import opened BabelMetric
  import opened BabelNode
  import opened BabelInvariants

  // ----- sources --------------------------------------------------------------------

  /** Equal up to reference counts. */
  predicate SameFds(s: Sources, s': Sources) {
    FdsKept(s, s') && FdsKept(s', s)
  }

  lemma FeasibleSameFds(n: Node, n': Node, r: Route)
    requires SameFds(n.srcs, n'.srcs) && n.now == n'.now
    ensures RouteFeasible(n, r) <==> RouteFeasible(n', r)
  {
  }

  lemma ReselectedSameFds(n: Node, n': Node, d: Dest, c: Chain, c': Chain)
    requires SameFds(n.srcs, n'.srcs) && n.now == n'.now && (Blocked(n', d) ==> Blocked(n, d))
    requires Reselected(n, d, c, c')
    ensures Reselected(n', d, c, c')
  {
    if c' != [] {
      FeasibleSameFds(n, n', c'[0]);
    }
    hide RouteFeasible, CountSrc, Routes, HeadOnly, Blocked;
  }

  lemma RetainedFds(srcs: Sources, key: SourceKey, delta: int)
    ensures SameFds(srcs, Retained(srcs, key, delta))
  {
  }

  lemma FoundFds(n: Node, key: SourceKey, seqno: int)
    ensures FdsKept(n.srcs, FoundSource(n, key, seqno)) && key in FoundSource(n, key, seqno)
  {
  }

  lemma {:induction false} CountAbsent(c: Chain, key: SourceKey)
    requires forall i :: 0 <= i < |c| ==> c[i].src != key
    ensures CountSrc(c, key) == 0
  {
    if c != [] {
      CountAbsent(c[1..], key);
    }
  }

  /** A source found or created has its exact count. */
  lemma FoundCounts(n: Node, key: SourceKey, seqno: int, k: SourceKey)
    requires NodeInv(n) && k in FoundSource(n, key, seqno)
    ensures FoundSource(n, key, seqno)[k].routeCount == CountSrc(ChainOf(n, k.dest), k)
  {
    if k !in n.srcs {
      var c := ChainOf(n, k.dest);
      if c != [] {
        assert ChainOk(n, k.dest, c);
        assert forall i :: 0 <= i < |c| ==> RouteOk(n, k.dest, c[i]);
      }
      CountAbsent(c, k);
    }
  }

  // ----- an update of a known route -------------------------------------------------

  function KnownSources(n: Node, m: Received, j: nat): Sources
    requires j < |ChainOf(n, m.dest)|
  {
    Retained(Retained(FoundSource(n, KeyOf(m), m.seqno), KeyOf(m), 1), ChainOf(n, m.dest)[j].src, -1)
  }

  lemma KnownCounts(n: Node, m: Received, j: nat, r: Route, k: SourceKey)
    requires NodeInv(n) && j < |ChainOf(n, m.dest)| && r.src == KeyOf(m) && k in KnownSources(n, m, j)
    ensures var c := ChainOf(n, m.dest);
            KnownSources(n, m, j)[k].routeCount
              == CountSrc(if k.dest == m.dest then c[j := r] else ChainOf(n, k.dest), k)
  {
    var c := ChainOf(n, m.dest);
    assert ChainOk(n, m.dest, c);
    assert RouteOk(n, m.dest, c[j]);
    FoundCounts(n, KeyOf(m), m.seqno, k);
    CountReplace(c, j, r, k);
    hide CountSrc;
  }

  lemma KnownFds(n: Node, m: Received, j: nat)
    requires j < |ChainOf(n, m.dest)|
    ensures FdsKept(n.srcs, KnownSources(n, m, j))
    ensures SameFds(Retained(FoundSource(n, KeyOf(m), m.seqno), KeyOf(m), 1), KnownSources(n, m, j))
    ensures SameFds(FoundSource(n, KeyOf(m), m.seqno), KnownSources(n, m, j))
    ensures KeyOf(m) in KnownSources(n, m, j)
  {
    FoundFds(n, KeyOf(m), m.seqno);
    RetainedFds(FoundSource(n, KeyOf(m), m.seqno), KeyOf(m), 1);
    RetainedFds(Retained(FoundSource(n, KeyOf(m), m.seqno), KeyOf(m), 1), ChainOf(n, m.dest)[j].src, -1);
  }

  lemma KnownEditedChain(n: Node, m: Received, j: nat, srcs: Sources, feasible: bool)
    requires NodeInv(n) && m.id != n.myid && FdsKept(n.srcs, srcs) && KeyOf(m) in srcs
    requires j < |ChainOf(n, m.dest)| && ChainOf(n, m.dest)[j].neigh == m.neigh
    requires feasible ==> UpdateFeasible(srcs, n.now, KeyOf(m), m.seqno, m.refmetric)
    ensures var c := ChainOf(n, m.dest);
            EditedChain(n, m.dest, srcs, c[j := Recorded(n, c[j], m, feasible)], Some(m))
  {
    var d, c := m.dest, ChainOf(n, m.dest);
    var r := Recorded(n, c[j], m, feasible);
    var c1, e := c[j := r], n.(srcs := srcs);
    assert ChainOk(n, d, c);
    assert feasible ==> RouteFeasible(e, r);
    hide UpdateFeasible, CountSrc, NodeInv;
    forall i | 0 <= i < |c1| ensures RouteOk(e, d, c1[i]) && Sourced(c, Some(m), c1[i]) {
      assert RouteOk(n, d, c[i]);
      assert i != j ==> Descends(c[i], c1[i]);
    }
  }

  lemma KnownEdited(n: Node, m: Received, j: nat)
    requires NodeInv(n) && m.id != n.myid
    requires j < |ChainOf(n, m.dest)| && ChainOf(n, m.dest)[j].neigh == m.neigh
    ensures var c := ChainOf(n, m.dest);
            var feasible := UpdateFeasible(FoundSource(n, KeyOf(m), m.seqno), n.now, KeyOf(m), m.seqno, m.refmetric);
            Edited(n, m.dest, KnownSources(n, m, j), c[j := Recorded(n, c[j], m, feasible)], Some(m))
  {
    var d, c, key := m.dest, ChainOf(n, m.dest), KeyOf(m);
    var feasible := UpdateFeasible(FoundSource(n, key, m.seqno), n.now, key, m.seqno, m.refmetric);
    var r := Recorded(n, c[j], m, feasible);
    var srcs, c1 := KnownSources(n, m, j), c[j := r];
    KnownFds(n, m, j);
    assert feasible ==> UpdateFeasible(srcs, n.now, key, m.seqno, m.refmetric);
    hide KnownSources, UpdateFeasible, EditedChain, NodeInv, CountSrc;
    KnownEditedChain(n, m, j, srcs, feasible);
    forall k | k in srcs
      ensures srcs[k].routeCount == CountSrc(if k.dest == d then c1 else ChainOf(n, k.dest), k)
    {
      KnownCounts(n, m, j, r, k);
    }
  }

  lemma UpdateKnownKeeps(n: Node, m: Received, j: nat)
    requires NodeInv(n) && m.id != n.myid
    requires j < |ChainOf(n, m.dest)| && ChainOf(n, m.dest)[j].neigh == m.neigh
    ensures var n' := UpdateKnown(n, m, j); NodeInv(n') && LocalStep(n, n', Some(m))
  {
    var d, c, key := m.dest, ChainOf(n, m.dest), KeyOf(m);
    var n1 := n.(srcs := FoundSource(n, key, m.seqno));
    var n2 := n1.(srcs := Retained(n1.srcs, key, 1));
    var feasible := UpdateFeasible(n1.srcs, n.now, key, m.seqno, m.refmetric);
    var r := Recorded(n, c[j], m, feasible);
    var c1 := c[j := r];
    var c2 := AfterChange(n2, d, c1, j, RouteMetric(c[j]));
    var c3 := if c[j].installed && !r.installed then AfterLoss(n2, d, c2) else c2;
    var e := n.(srcs := KnownSources(n, m, j));
    KnownEdited(n, m, j);
    KnownFds(n, m, j);
    AfterChangeReselects(n2, d, c1, j, RouteMetric(c[j]));
    AfterLossReselects(n2, d, c2);
    hide Reselected, Edited, NodeInv, LocalStep, AfterChange, AfterLoss, KnownSources, Recorded, UpdateFeasible;
    ReselectedSame(n2, d, c2);
    ReselectedTransitive(n2, d, c1, c2, c3);
    ReselectedSameFds(n2, e, d, c1, c3);
    EditedInv(n, d, e.srcs, c1, c3, Some(m));
    EditedStep(n, d, e.srcs, c1, c3, Some(m));
    assert UpdateKnown(n, m, j) == WithChain(e, d, c3) by { KnownResult(n, m, j, c3, e); }
  }

  lemma KnownResult(n: Node, m: Received, j: nat, c3: Chain, e: Node)
    requires j < |ChainOf(n, m.dest)|
    requires e == n.(srcs := KnownSources(n, m, j))
    requires var d, c, key := m.dest, ChainOf(n, m.dest), KeyOf(m);
             var n1 := n.(srcs := FoundSource(n, key, m.seqno));
             var n2 := n1.(srcs := Retained(n1.srcs, key, 1));
             var r := Recorded(n, c[j], m, UpdateFeasible(n1.srcs, n.now, key, m.seqno, m.refmetric));
             var c2 := AfterChange(n2, d, c[j := r], j, RouteMetric(c[j]));
             c3 == if c[j].installed && !r.installed then AfterLoss(n2, d, c2) else c2
    ensures UpdateKnown(n, m, j) == WithChain(e, m.dest, c3)
  {
    hide AfterChange, AfterLoss, Recorded, UpdateFeasible, Retained, FoundSource;
  }

  // ----- an update that announces a new route ---------------------------------------

  /** Sources may be added without touching the chains. */
  lemma AddSourceKeeps(n: Node, key: SourceKey, seqno: int)
    requires NodeInv(n)
    ensures var n' := n.(srcs := FoundSource(n, key, seqno)); NodeInv(n') && LocalStep(n, n', None)
  {
    var n' := n.(srcs := FoundSource(n, key, seqno));
    FoundFds(n, key, seqno);
    forall d | d in n'.chains ensures n'.chains[d] != [] && ChainOk(n', d, n'.chains[d]) {
      assert ChainOk(n, d, n.chains[d]);
      assert forall i :: 0 <= i < |n.chains[d]| ==> RouteOk(n, d, n.chains[d][i]);
    }
    forall k | k in n'.srcs ensures n'.srcs[k].routeCount == CountSrc(ChainOf(n', k.dest), k) {
      FoundCounts(n, key, seqno, k);
    }
    assert forall d :: HasInstalled(n', d) <==> HasInstalled(n, d);
    SameChains(n, n', None);
  }

  lemma SameChains(n: Node, n': Node, m: Option<Received>)
    requires n'.chains == n.chains && n'.myid == n.myid && n'.now == n.now && FdsKept(n.srcs, n'.srcs)
    ensures LocalStep(n, n', m)
  {
    forall d, i | 0 <= i < |ChainOf(n', d)| ensures Sourced(ChainOf(n, d), m, ChainOf(n', d)[i]) {
      assert Descends(ChainOf(n, d)[i], ChainOf(n', d)[i]);
    }
  }

  lemma NewCounts(n: Node, m: Received, r: Route, k: SourceKey)
    requires NodeInv(n) && r.src == KeyOf(m)
    requires k in Retained(FoundSource(n, KeyOf(m), m.seqno), KeyOf(m), 1)
    ensures Retained(FoundSource(n, KeyOf(m), m.seqno), KeyOf(m), 1)[k].routeCount
              == CountSrc(if k.dest == m.dest then ChainOf(n, m.dest) + [r] else ChainOf(n, k.dest), k)
  {
    FoundFds(n, KeyOf(m), m.seqno);
    FoundCounts(n, KeyOf(m), m.seqno, k);
    CountConcat(ChainOf(n, m.dest), [r], k);
    assert [r][1..] == [];
  }

  lemma NewEditedChain(n: Node, m: Received, srcs: Sources)
    requires NodeInv(n) && m.id != n.myid && FdsKept(n.srcs, srcs) && KeyOf(m) in srcs
    ensures EditedChain(n, m.dest, srcs, ChainOf(n, m.dest) + [NewRoute(n, m)], Some(m))
  {
    var d, c := m.dest, ChainOf(n, m.dest);
    var c1, e := c + [NewRoute(n, m)], n.(srcs := srcs);
    assert c != [] ==> ChainOk(n, d, c);
    hide CountSrc, NodeInv;
    forall i | 0 <= i < |c1| ensures RouteOk(e, d, c1[i]) && Sourced(c, Some(m), c1[i]) {
      if i < |c| {
        assert RouteOk(n, d, c[i]);
        assert Descends(c[i], c1[i]);
      }
    }
  }

  lemma NewEdited(n: Node, m: Received)
    requires NodeInv(n) && m.id != n.myid
    ensures Edited(n, m.dest, Retained(FoundSource(n, KeyOf(m), m.seqno), KeyOf(m), 1),
                   ChainOf(n, m.dest) + [NewRoute(n, m)], Some(m))
  {
    var key := KeyOf(m);
    var srcs := Retained(FoundSource(n, key, m.seqno), key, 1);
    FoundFds(n, key, m.seqno);
    RetainedFds(FoundSource(n, key, m.seqno), key, 1);
    hide EditedChain, NodeInv, CountSrc, Retained, FoundSource;
    NewEditedChain(n, m, srcs);
    forall k | k in srcs
      ensures srcs[k].routeCount
           == CountSrc(if k.dest == m.dest then ChainOf(n, m.dest) + [NewRoute(n, m)] else ChainOf(n, k.dest), k)
    {
      NewCounts(n, m, NewRoute(n, m), k);
    }
  }

  lemma UpdateNewKeeps(n: Node, m: Received)
    requires NodeInv(n) && m.id != n.myid
    ensures var n' := UpdateNew(n, m); NodeInv(n') && LocalStep(n, n', Some(m))
  {
    var d, c, key := m.dest, ChainOf(n, m.dest), KeyOf(m);
    var n1 := n.(srcs := FoundSource(n, key, m.seqno));
    var n2 := n1.(srcs := Retained(n1.srcs, key, 1));
    var c1 := c + [NewRoute(n, m)];
    var c2 := Considered(n2, d, c1, |c|);
    FoundFds(n, key, m.seqno);
    SameChains(n, n1, Some(m));
    hide Reselected, Edited, NodeInv, LocalStep, Considered, NewRoute, UpdateFeasible;
    AddSourceKeeps(n, key, m.seqno);
    NewEdited(n, m);
    ConsideredReselects(n2, d, c1, |c|);
    EditedInv(n, d, n2.srcs, c1, c2, Some(m));
    EditedStep(n, d, n2.srcs, c1, c2, Some(m));
    assert UpdateNew(n, m) == n1 || UpdateNew(n, m) == WithChain(n.(srcs := n2.srcs), d, c2);
  }

  lemma UpdateRouteKeeps(n: Node, m: Received, martian: bool)
    requires NodeInv(n)
    ensures var n' := UpdateRoute(n, m, martian); NodeInv(n') && LocalStep(n, n', Some(m))
  {
    hide NodeInv, LocalStep, UpdateKnown, UpdateNew;
    SameChains(n, n, Some(m));
    if m.id != n.myid {
      var j := FindRoute(ChainOf(n, m.dest), m.neigh, m.nexthop);
      if j < |ChainOf(n, m.dest)| {
        UpdateKnownKeeps(n, m, j);
      } else {
        UpdateNewKeeps(n, m);
      }
    }
  }

  // ----- what an update leaves in the table -----------------------------------------

  lemma RoutesReplace(c: Chain, j: nat, r: Route)
    requires j < |c|
    ensures Routes(c[j := r]) == Routes(c) - multiset{Bare(c[j])} + multiset{Bare(r)}
  {
    RoutesSplit(c, j);
    RoutesSplit(c[j := r], j);
    assert c[j := r][..j] == c[..j] && c[j := r][j + 1..] == c[j + 1..];
    hide Routes;
  }

  /** A known route is replaced by what the update says; its age is kept if the update is unfeasible
      or a retraction. */
  lemma KnownRecorded(n: Node, m: Received, j: nat)
    requires j < |ChainOf(n, m.dest)|
    requires ChainOf(n, m.dest)[j].neigh == m.neigh && ChainOf(n, m.dest)[j].nexthop == m.nexthop
    ensures var c := ChainOf(n, m.dest);
            var renewed := (UpdateFeasible(FoundSource(n, KeyOf(m), m.seqno), n.now, KeyOf(m), m.seqno, m.refmetric)
                           || n.config.keepUnfeasible) && m.refmetric < INFINITY;
            Routes(ChainOf(UpdateKnown(n, m, j), m.dest)) == Routes(c) - multiset{Bare(c[j])}
              + multiset{NewRoute(n, m).(time := if renewed then n.now else c[j].time)}
  {
    var d, c, key := m.dest, ChainOf(n, m.dest), KeyOf(m);
    var n1 := n.(srcs := FoundSource(n, key, m.seqno));
    var n2 := n1.(srcs := Retained(n1.srcs, key, 1));
    var feasible := UpdateFeasible(n1.srcs, n.now, key, m.seqno, m.refmetric);
    var r := Recorded(n, c[j], m, feasible);
    var c2 := AfterChange(n2, d, c[j := r], j, RouteMetric(c[j]));
    var c3 := if c[j].installed && !r.installed then AfterLoss(n2, d, c2) else c2;
    RoutesReplace(c, j, r);
    AfterChangeReselects(n2, d, c[j := r], j, RouteMetric(c[j]));
    AfterLossReselects(n2, d, c2);
    var e := n.(srcs := KnownSources(n, m, j));
    KnownResult(n, m, j, c3, e);
    WithChainOf(e, d, c3, d);
    hide AfterChange, AfterLoss, UpdateFeasible, Retained, FoundSource, Routes, UpdateKnown, KnownSources, CountSrc;
  }

  /** A new route is added as the update says, unless it is a retraction, or unfeasible and such
      routes are not kept. */
  lemma NewRecorded(n: Node, m: Received)
    ensures var c, c' := ChainOf(n, m.dest), ChainOf(UpdateNew(n, m), m.dest);
            var kept := (UpdateFeasible(FoundSource(n, KeyOf(m), m.seqno), n.now, KeyOf(m), m.seqno, m.refmetric)
                         || n.config.keepUnfeasible) && m.refmetric < INFINITY;
            if kept then Routes(c') == Routes(c) + multiset{NewRoute(n, m)} else c' == c
  {
    var d, c, key := m.dest, ChainOf(n, m.dest), KeyOf(m);
    var n1 := n.(srcs := FoundSource(n, key, m.seqno));
    var n2 := n1.(srcs := Retained(n1.srcs, key, 1));
    var c1 := c + [NewRoute(n, m)];
    RoutesConcat(c, [NewRoute(n, m)]);
    assert BareSeq([NewRoute(n, m)]) == [NewRoute(n, m)];
    ConsideredReselects(n2, d, c1, |c|);
    WithChainOf(n2, d, Considered(n2, d, c1, |c|), d);
    hide Considered, UpdateFeasible, Retained, FoundSource, NewRoute, CountSrc;
  }

  /** Chains of other destinations are left alone. */
  lemma OtherChains(n: Node, m: Received, martian: bool, x: Dest)
    requires x != m.dest
    ensures ChainOf(UpdateRoute(n, m, martian), x) == ChainOf(n, x)
  {
    hide AfterChange, AfterLoss, Considered, UpdateFeasible, Retained, FoundSource, Recorded, NewRoute, FindRoute;
  }

  // ----- flushing and metric changes ------------------------------------------------

  lemma FlushEditedChain(n: Node, d: Dest, j: nat, srcs: Sources)
    requires NodeInv(n) && j < |ChainOf(n, d)| && FdsKept(n.srcs, srcs)
    ensures EditedChain(n, d, srcs, ChainOf(n, d)[..j] + ChainOf(n, d)[j + 1..], None)
  {
    var c := ChainOf(n, d);
    var c1, e := c[..j] + c[j + 1..], n.(srcs := srcs);
    assert ChainOk(n, d, c);
    hide CountSrc, NodeInv;
    assert forall i :: 0 <= i < |c1| ==> c1[i] == if i < j then c[i] else c[i + 1];
    forall i | 0 <= i < |c1| ensures RouteOk(e, d, c1[i]) && Sourced(c, None, c1[i]) {
      var k := if i < j then i else i + 1;
      assert RouteOk(n, d, c[k]);
      assert Descends(c[k], c1[i]);
    }
  }

  lemma FlushEdited(n: Node, d: Dest, j: nat)
    requires NodeInv(n) && j < |ChainOf(n, d)|
    ensures var c := ChainOf(n, d);
            Edited(n, d, Retained(n.srcs, c[j].src, -1), c[..j] + c[j + 1..], None)
  {
    var c := ChainOf(n, d);
    var srcs := Retained(n.srcs, c[j].src, -1);
    assert ChainOk(n, d, c);
    assert RouteOk(n, d, c[j]);
    RetainedFds(n.srcs, c[j].src, -1);
    hide EditedChain, CountSrc;
    FlushEditedChain(n, d, j, srcs);
    forall k | k in srcs
      ensures srcs[k].routeCount == CountSrc(if k.dest == d then c[..j] + c[j + 1..] else ChainOf(n, k.dest), k)
    {
      CountRemove(c, j, k);
    }
  }

  lemma FlushRouteKeeps(n: Node, d: Dest, j: nat)
    requires NodeInv(n) && j < |ChainOf(n, d)|
    ensures var n' := FlushRoute(n, d, j); NodeInv(n') && LocalStep(n, n', None)
  {
    var c := ChainOf(n, d);
    var srcs, c1 := Retained(n.srcs, c[j].src, -1), c[..j] + c[j + 1..];
    var e := n.(srcs := srcs);
    var c2 := if c[j].installed then AfterLoss(n, d, c1) else c1;
    RetainedFds(n.srcs, c[j].src, -1);
    hide Reselected, Edited, NodeInv, LocalStep, AfterLoss, Retained, SameFds;
    FlushEdited(n, d, j);
    AfterLossReselects(n, d, c1);
    ReselectedSame(n, d, c1);
    ReselectedSameFds(n, e, d, c1, c2);
    EditedInv(n, d, srcs, c1, c2, None);
    EditedStep(n, d, srcs, c1, c2, None);
  }

  lemma ReplaceEdited(n: Node, d: Dest, j: nat, r: Route)
    requires NodeInv(n) && j < |ChainOf(n, d)|
    requires Descends(ChainOf(n, d)[j], r) && r.installed == ChainOf(n, d)[j].installed
    ensures Edited(n, d, n.srcs, ChainOf(n, d)[j := r], None)
  {
    var c := ChainOf(n, d);
    var c1 := c[j := r];
    assert ChainOk(n, d, c);
    assert n.(srcs := n.srcs) == n;
    forall k | k in n.srcs
      ensures n.srcs[k].routeCount == CountSrc(if k.dest == d then c1 else ChainOf(n, k.dest), k)
    {
      CountReplace(c, j, r, k);
    }
    hide CountSrc;
    forall i | 0 <= i < |c1| ensures RouteOk(n, d, c1[i]) && Sourced(c, None, c1[i]) {
      assert RouteOk(n, d, c[i]);
      assert Descends(c[i], c1[i]);
    }
  }

  /** Replacing a route by a descendant, with or without a reselection. */
  lemma ReplaceKeeps(n: Node, d: Dest, j: nat, r: Route, reselect: bool, before: nat)
    requires NodeInv(n) && j < |ChainOf(n, d)|
    requires Descends(ChainOf(n, d)[j], r) && r.installed == ChainOf(n, d)[j].installed
    ensures var c1 := ChainOf(n, d)[j := r];
            var n' := WithChain(n, d, if reselect then AfterChange(n, d, c1, j, before) else c1);
            NodeInv(n') && LocalStep(n, n', None)
  {
    var c1 := ChainOf(n, d)[j := r];
    var c2 := if reselect then AfterChange(n, d, c1, j, before) else c1;
    assert n.(srcs := n.srcs) == n;
    hide Reselected, Edited, NodeInv, LocalStep, AfterChange, Descends;
    ReplaceEdited(n, d, j, r);
    ReselectedSame(n, d, c1);
    AfterChangeReselects(n, d, c1, j, before);
    EditedInv(n, d, n.srcs, c1, c2, None);
    EditedStep(n, d, n.srcs, c1, c2, None);
  }

  lemma UpdateRouteMetricKeeps(n: Node, d: Dest, j: nat, cost: nat, addMetric: nat)
    requires NodeInv(n) && j < |ChainOf(n, d)|
    ensures var n' := UpdateRouteMetric(n, d, j, cost, addMetric); NodeInv(n') && LocalStep(n, n', None)
  {
    hide NodeInv, LocalStep, AfterChange, RouteMetric;
    var r, before := ChainOf(n, d)[j], RouteMetric(ChainOf(n, d)[j]);
    SameChains(n, n, None);
    if RouteExpired(r, n.now) {
      ReplaceKeeps(n, d, j, Expired(n.srcs, r), before < INFINITY, before);
    } else {
      var r' := WithMetric(r, r.refmetric, cost, addMetric % 0x1_0000);
      ReplaceKeeps(n, d, j, r', RouteMetric(r') != before, before);
    }
  }

  lemma RetractRouteKeeps(n: Node, d: Dest, j: nat)
    requires NodeInv(n) && j < |ChainOf(n, d)|
    ensures var n' := RetractRoute(n, d, j); NodeInv(n') && LocalStep(n, n', None)
  {
    hide NodeInv, LocalStep, AfterChange, RouteMetric;
    var r, before := ChainOf(n, d)[j], RouteMetric(ChainOf(n, d)[j]);
    SameChains(n, n, None);
    ReplaceKeeps(n, d, j, WithMetric(r, INFINITY, INFINITY, 0), before != INFINITY, before);
  }

  // ----- exported routes ------------------------------------------------------------

  lemma UninstalledFacts(c: Chain)
    ensures !HeadInstalled(Uninstalled(c)) && |Uninstalled(c)| == |c|
    ensures HeadOnly(c) ==> HeadOnly(Uninstalled(c))
    ensures forall i :: 0 <= i < |c| ==> Bare(Uninstalled(c)[i]) == Bare(c[i])
    ensures forall key :: CountSrc(Uninstalled(c), key) == CountSrc(c, key)
  {
    if c != [] {
      forall key ensures CountSrc(Uninstalled(c), key) == CountSrc(c, key) {
        CountReplace(c, 0, c[0].(installed := false), key);
      }
    }
  }

  lemma AddXrouteInv(n: Node, d: Dest, metric: nat, martian: bool)
    requires NodeInv(n)
    ensures NodeInv(AddXroute(n, d, metric, martian))
  {
    var n' := AddXroute(n, d, metric, martian);
    var c := ChainOf(n, d);
    UninstalledFacts(c);
    hide CountSrc, Uninstalled, HeadOnly;
    forall x | x in n'.chains ensures n'.chains[x] != [] && ChainOk(n', x, n'.chains[x]) {
      assert ChainOk(n, x, n.chains[x]);
      forall i | 0 <= i < |n'.chains[x]| ensures RouteOk(n', x, n'.chains[x][i]) {
        assert RouteOk(n, x, n.chains[x][i]);
        assert Bare(n'.chains[x][i]) == Bare(n.chains[x][i]);
      }
    }
    forall x | n.config.allowDuplicates < 0 && x in n'.xroutes ensures !HasInstalled(n', x) {
      if x != d {
        assert ChainOf(n', x) == ChainOf(n, x);
      }
    }
  }

  lemma AddXrouteStep(n: Node, d: Dest, metric: nat, martian: bool)
    ensures LocalStep(n, AddXroute(n, d, metric, martian), None)
  {
    var n' := AddXroute(n, d, metric, martian);
    UninstalledFacts(ChainOf(n, d));
    hide Uninstalled;
    forall x, i | 0 <= i < |ChainOf(n', x)| ensures Sourced(ChainOf(n, x), None, ChainOf(n', x)[i]) {
      assert Bare(ChainOf(n', x)[i]) == Bare(ChainOf(n, x)[i]);
      assert Descends(ChainOf(n, x)[i], ChainOf(n', x)[i]);
    }
  }

  lemma FlushXrouteKeeps(n: Node, d: Dest)
    requires NodeInv(n)
    ensures NodeInv(FlushXroute(n, d)) && LocalStep(n, FlushXroute(n, d), None)
  {
    var n' := FlushXroute(n, d);
    SameChains(n, n', None);
    forall x | x in n'.chains ensures ChainOk(n', x, n'.chains[x]) {
      assert ChainOk(n, x, n.chains[x]);
      assert forall i :: 0 <= i < |n.chains[x]| ==> RouteOk(n, x, n.chains[x][i]);
    }
    assert forall x :: HasInstalled(n', x) <==> HasInstalled(n, x);
  }

  // ----- advertising and expiry -----------------------------------------------------

  /** The chains stay; sources stay with their counts. */
  lemma SourcesRefreshed(n: Node, n': Node)
    requires NodeInv(n) && n' == n.(srcs := n'.srcs)
    requires forall key :: key in n'.srcs ==> key in n.srcs && n'.srcs[key].routeCount == n.srcs[key].routeCount
    requires forall key :: key in n.srcs && n.srcs[key].routeCount > 0 ==> key in n'.srcs
    ensures NodeInv(n')
  {
    forall d | d in n'.chains ensures ChainOk(n', d, n'.chains[d]) {
      var c := n.chains[d];
      assert ChainOk(n, d, c);
      forall i | 0 <= i < |c| ensures RouteOk(n', d, c[i]) {
        assert RouteOk(n, d, c[i]);
        CountAt(c, i, c[i].src);
      }
    }
    assert forall d :: HasInstalled(n', d) <==> HasInstalled(n, d);
  }

  lemma AdvertiseInv(n: Node, d: Dest, mode: SendMode)
    requires NodeInv(n)
    ensures NodeInv(Advertise(n, d, mode).0)
  {
    SourcesRefreshed(n, Advertise(n, d, mode).0);
  }

  /** Sources in use survive expiry, and with them the whole invariant. */
  lemma ExpireSourcesInv(n: Node)
    requires NodeInv(n)
    ensures NodeInv(ExpireSources(n))
    ensures forall d, i :: 0 <= i < |ChainOf(n, d)| ==> ChainOf(n, d)[i].src in ExpireSources(n).srcs
  {
    var n' := ExpireSources(n);
    SourcesRefreshed(n, n');
    forall d, i | 0 <= i < |ChainOf(n, d)| ensures ChainOf(n, d)[i].src in n'.srcs {
      assert ChainOk(n', d, n'.chains[d]);
      assert RouteOk(n', d, n'.chains[d][i]);
    }
  }

  /** The clock and the own sequence number do not matter for the invariant. */
  lemma ScalarsInv(n: Node, now: int, myseqno: int)
    requires NodeInv(n)
    ensures NodeInv(n.(now := now, myseqno := myseqno))
  {
    var n' := n.(now := now, myseqno := myseqno);
    forall d | d in n'.chains ensures ChainOk(n', d, n'.chains[d]) {
      assert ChainOk(n, d, n.chains[d]);
      assert forall i :: 0 <= i < |n.chains[d]| ==> RouteOk(n, d, n.chains[d][i]);
    }
    assert forall d :: HasInstalled(n', d) <==> HasInstalled(n, d);
  }
}
