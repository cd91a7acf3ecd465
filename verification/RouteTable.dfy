/** The route table of babeld as an object whose operations change it in place (babeld/route.c,
    babeld/source.c, babeld/xroute.c).

    `node` is the same state seen through maps.  Every method is proved against the functions of
    BabelNode on it. */
module RouteTable {
  import opened Wrappers
  import opened BabelMetric
  import opened Bytes
  import opened Seqno
  import opened BabelNode
  import opened BabelInvariants
  import opened BabelOperations
  import opened RouteSlots
  import RequestWalk

  /** Storing a chain that is already there changes nothing. */
  lemma SlotKept(n: Node, slots: seq<Chain>, k: nat)
    requires SlotsSorted(slots) && SlotsShow(slots, n.chains) && k < |slots|
    ensures n == WithChain(n, DestOf(slots[k]), slots[k])
  {
    assert n.chains == n.chains[DestOf(slots[k]) := slots[k]];
  }

  /** A known route whose router id does not change needs no search for its source. */
  lemma SameSource(n: Node, m: Received, j: nat)
    requires NodeInv(n) && j < |ChainOf(n, m.dest)| && ChainOf(n, m.dest)[j].src.id == m.id
    ensures FoundSource(n, KeyOf(m), m.seqno) == n.srcs
  {
    assert ChainOk(n, m.dest, ChainOf(n, m.dest));
    assert RouteOk(n, m.dest, ChainOf(n, m.dest)[j]);
  }

  lemma UniformReplaced(slots: seq<Chain>, k: nat, j: nat, r: Route)
    requires SlotsSorted(slots) && k < |slots| && j < |slots[k]| && r.src.dest == DestOf(slots[k])
    ensures Uniform(slots[k][j := r], DestOf(slots[k])) && DestOf(slots[k][j := r]) == DestOf(slots[k])
  {
  }

  lemma RecordedView(n: Node, n': Node, r: Route, m: Received, feasible: bool)
    requires n'.now == n.now && n'.config == n.config
    ensures Recorded(n, r, m, feasible) == Recorded(n', r, m, feasible)
  {
  }

  lemma BelowDiffer(slots: seq<Chain>, k: nat)
    requires SlotsSorted(slots) && k < |slots|
    ensures forall i :: 0 <= i < |slots| && i != k ==> DestOf(slots[i]) != DestOf(slots[k])
  {
    forall i | 0 <= i < |slots| && i != k ensures DestOf(slots[i]) != DestOf(slots[k]) {
      DistinctDests(slots, i, k);
    }
  }

  lemma WithChainSources(n: Node, d: Dest, c: Chain, srcs: Sources)
    ensures WithChain(n, d, c).(srcs := srcs) == WithChain(n.(srcs := srcs), d, c)
    ensures SameView(n, WithChain(n, d, c))
  {
  }

  /** What flush_route leaves of a chain. */
  function Remaining(n: Node, d: Dest, c: Chain, j: nat): Chain
    requires j < |c|
  {
    var rest := c[..j] + c[j + 1..];
    if c[j].installed then AfterLoss(n, d, rest) else rest
  }

  lemma FlushResult(n: Node, d: Dest, j: nat)
    requires j < |ChainOf(n, d)|
    ensures var c := ChainOf(n, d);
            var n' := WithChain(n, d, Remaining(n, d, c, j));
            BabelNode.FlushRoute(n, d, j) == n'.(srcs := Retained(n'.srcs, c[j].src, -1))
  {
    hide AfterLoss, Retained;
  }

  /** The number of routes in the table. */
  function Total(slots: seq<Chain>): nat {
    if slots == [] then 0 else |slots[0]| + Total(slots[1..])
  }

  lemma {:induction false} TotalReplaced(slots: seq<Chain>, k: nat, c: Chain)
    requires k < |slots|
    ensures Total(slots[k := c]) == Total(slots) - |slots[k]| + |c|
  {
    if k == 0 {
      assert slots[k := c][1..] == slots[1..];
    } else {
      TotalReplaced(slots[1..], k - 1, c);
      assert slots[k := c][1..] == slots[1..][k - 1 := c];
    }
  }

  lemma {:induction false} TotalRemoved(slots: seq<Chain>, k: nat)
    requires k < |slots|
    ensures Total(Removed(slots, k)) == Total(slots) - |slots[k]|
  {
    if k == 0 {
      assert Removed(slots, k) == slots[1..];
    } else {
      TotalRemoved(slots[1..], k - 1);
      assert Removed(slots, k)[1..] == Removed(slots[1..], k - 1);
    }
  }

  // ----- flushing -------------------------------------------------------------------

  /** Which routes a flush is about. */
  datatype Match = OfNeighbour(neigh: Neighbour) | OfInterface(ifp: nat, v4only: bool)

  predicate Matches(q: Match, r: Route) {
    match q
    case OfNeighbour(neigh) => r.neigh == neigh
    case OfInterface(ifp, v4only) => r.neigh.ifp == ifp && (!v4only || V4Mapped(Octets(r.nexthop, 16)))
  }

  predicate NoMatch(q: Match, c: Chain) {
    forall i :: 0 <= i < |c| ==> !Matches(q, c[i])
  }

  /** Every other route is still there, as often as before. */
  ghost predicate Spared(q: Match, n: Node, n': Node) {
    forall d, r :: !Matches(q, r) ==> Routes(ChainOf(n', d))[r] == Routes(ChainOf(n, d))[r]
  }

  lemma SparedSame(q: Match, n: Node)
    ensures Spared(q, n, n)
  {
  }

  /** A flush takes one route from one chain. */
  lemma FlushTakesOne(n: Node, d: Dest, j: nat, x: Dest)
    requires j < |ChainOf(n, d)|
    ensures Routes(ChainOf(BabelNode.FlushRoute(n, d, j), x))
         == if x == d then Routes(ChainOf(n, d)) - multiset{Bare(ChainOf(n, d)[j])} else Routes(ChainOf(n, x))
  {
    var c := ChainOf(n, d);
    var rest := c[..j] + c[j + 1..];
    var c1 := if c[j].installed then AfterLoss(n, d, rest) else rest;
    RoutesSplit(c, j);
    RoutesConcat(c[..j], c[j + 1..]);
    AfterLossReselects(n, d, rest);
    hide AfterLoss, Routes, Retained, Bare;
    WithChainOf(n.(srcs := Retained(n.srcs, c[j].src, -1)), d, c1, x);
  }

  lemma FlushSpares(q: Match, n0: Node, n: Node, d: Dest, j: nat)
    requires Spared(q, n0, n) && j < |ChainOf(n, d)| && Matches(q, ChainOf(n, d)[j])
    ensures Spared(q, n0, BabelNode.FlushRoute(n, d, j))
  {
    var n' := BabelNode.FlushRoute(n, d, j);
    var f := Bare(ChainOf(n, d)[j]);
    assert Matches(q, f);
    hide Matches, BabelNode.FlushRoute, Routes, Bare;
    forall x, r | !Matches(q, r) ensures Routes(ChainOf(n', x))[r] == Routes(ChainOf(n0, x))[r] {
      FlushTakesOne(n, d, j, x);
    }
  }

  lemma NoneLeft(q: Match, slots: seq<Chain>, chains: map<Dest, Chain>)
    requires SlotsSorted(slots) && SlotsShow(slots, chains)
    requires forall a :: 0 <= a < |slots| ==> NoMatch(q, slots[a])
    ensures forall d :: d in chains ==> NoMatch(q, chains[d])
  {
    hide NoMatch;
    forall d | d in chains ensures NoMatch(q, chains[d]) {
      assert HasSlot(slots, d);
    }
  }

  lemma FlushExact(q: Match, n: Node, n': Node)
    requires Spared(q, n, n') && forall d :: d in n'.chains ==> NoMatch(q, n'.chains[d])
    ensures forall d, r :: Routes(ChainOf(n', d))[r] == if Matches(q, r) then 0 else Routes(ChainOf(n, d))[r]
  {
    forall d, r | Matches(q, r) ensures Routes(ChainOf(n', d))[r] == 0 {
      var c := ChainOf(n', d);
      forall i | 0 <= i < |c| ensures BareSeq(c)[i] != r {
        assert Matches(q, BareSeq(c)[i]) == Matches(q, c[i]);
      }
    }
    hide Routes, Matches;
  }

  lemma InstalledRouteIs(n: Node, d: Dest)
    ensures RequestWalk.InstalledRoute(n, d).Some? <==> HasInstalled(n, d)
  {
  }

  // ----- expiry ---------------------------------------------------------------------

  function SweptList(l: seq<(SourceKey, Source)>, now: int): seq<(SourceKey, Source)> {
    if l == [] then []
    else if Disposable(l[0].1, now) then SweptList(l[1..], now)
    else [Clamped(l[0], now)] + SweptList(l[1..], now)
  }

  function Clamped(e: (SourceKey, Source), now: int): (SourceKey, Source) {
    (e.0, e.1.(time := if e.1.time > now then now else e.1.time))
  }

  /** The walk has reached `i` in what is left of the list `l0`. */
  predicate Sweeping(l0: seq<(SourceKey, Source)>, l: seq<(SourceKey, Source)>, i: nat, now: int) {
    i <= |l| && l[..i] + SweptList(l[i..], now) == SweptList(l0, now)
  }

  lemma SweepStart(l: seq<(SourceKey, Source)>, now: int)
    ensures Sweeping(l, l, 0, now)
  {
    assert l[0..] == l && l[..0] + SweptList(l, now) == SweptList(l, now);
  }

  lemma SweepStep(l0: seq<(SourceKey, Source)>, l: seq<(SourceKey, Source)>, i: nat, now: int)
    requires i < |l| && Sweeping(l0, l, i, now)
    ensures Disposable(l[i].1, now) ==> Sweeping(l0, l[..i] + l[i + 1..], i, now)
    ensures !Disposable(l[i].1, now) ==> Sweeping(l0, l[i := Clamped(l[i], now)], i + 1, now)
  {
    var l1, l2, e := l[..i] + l[i + 1..], l[i := Clamped(l[i], now)], Clamped(l[i], now);
    assert l[i..][1..] == l[i + 1..];
    assert l1[..i] == l[..i] && l1[i..] == l[i + 1..];
    assert l2[..i + 1] == l[..i] + [e] && l2[i + 1..] == l[i + 1..];
    var t := SweptList(l[i + 1..], now);
    assert l[..i] + ([e] + t) == (l[..i] + [e]) + t;
  }

  lemma SweepEnd(l0: seq<(SourceKey, Source)>, l: seq<(SourceKey, Source)>, now: int)
    requires Sweeping(l0, l, |l|, now)
    ensures l == SweptList(l0, now)
  {
    assert l[..|l|] + [] == l;
  }

  lemma ListsTail(l: seq<(SourceKey, Source)>, m: Sources)
    requires l != [] && Lists(l, m)
    ensures Lists(l[1..], m - {l[0].0})
  {
    forall x | x in m - {l[0].0} ensures Listed(l[1..], x) {
      assert Listed(l, x);
      var i :| 0 <= i < |l| && l[i].0 == x;
      assert l[1..][i - 1].0 == x;
    }
  }

  /** Sweeping the list sweeps the map. */
  lemma {:induction false} SweptLists(l: seq<(SourceKey, Source)>, m: Sources, now: int)
    requires Lists(l, m)
    ensures Lists(SweptList(l, now), Swept(m, now))
  {
    if l == [] {
      assert forall x :: x in m ==> Listed(l, x);
      assert Swept(m, now) == map[];
    } else {
      var m' := m - {l[0].0};
      ListsTail(l, m);
      SweptLists(l[1..], m', now);
      SweptCons(m, l[0].0, now);
      if !Disposable(m[l[0].0], now) {
        ListsCons(SweptList(l[1..], now), Swept(m', now), l[0].0, Swept(m, now)[l[0].0]);
      }
    }
  }

  lemma SweptCons(m: Sources, key: SourceKey, now: int)
    requires key in m
    ensures Disposable(m[key], now) ==> Swept(m, now) == Swept(m - {key}, now)
    ensures !Disposable(m[key], now) ==>
              key in Swept(m, now) && Swept(m, now) == Swept(m - {key}, now)[key := Swept(m, now)[key]]
  {
  }

  class Table {
    const myid: nat
    const config: Config
    var myseqno: int
    var now: int
    var slots: seq<Chain>
    var srcs: seq<(SourceKey, Source)>
    var xroutes: seq<(Dest, nat)>
    ghost var node: Node

    /** The stored form shows the abstract state. */
    ghost predicate Rep()
      reads this
    {
      && node.myid == myid && node.config == config && node.now == now && node.myseqno == myseqno
      && SlotsSorted(slots) && SlotsShow(slots, node.chains)
      && Lists(srcs, node.srcs) && Lists(xroutes, node.xroutes)
    }

    ghost predicate Valid()
      reads this
    {
      Rep() && NodeInv(node)
    }

    lemma SlotChain(k: nat)
      requires Rep() && k < |slots|
      ensures slots[k] != [] && ChainOf(node, DestOf(slots[k])) == slots[k]
    {
    }

    constructor (myid: nat, config: Config, myseqno: int, now: int)
      ensures Valid() && this.myid == myid && this.config == config
      ensures node == Node(myid, myseqno, now, config, map[], map[], map[])
    {
      this.myid, this.config, this.myseqno, this.now := myid, config, myseqno, now;
      slots, srcs, xroutes := [], [], [];
      node := Node(myid, myseqno, now, config, map[], map[], map[]);
    }

    // ----- looking up ---------------------------------------------------------------

    /** find_route_slot: binary search.  It agrees with a lookup in the map, and on a miss gives
        the place where the destination belongs. */
    method FindRouteSlot(d: Dest) returns (found: bool, k: nat)
      requires Rep()
      ensures found <==> d in node.chains
      ensures found ==> k < |slots| && DestOf(slots[k]) == d && node.chains[d] == slots[k]
      ensures !found ==> InsertionPoint(slots, d, k)
    {
      if |slots| < 1 {
        return false, 0;
      }
      var p: int, g: int := 0, |slots| - 1;
      while p <= g
        invariant 0 <= p <= g + 1 <= |slots|
        invariant forall i :: 0 <= i < p ==> Less(DestOf(slots[i]), d)
        invariant forall i :: g < i < |slots| ==> Less(d, DestOf(slots[i]))
        decreases g - p
      {
        var m := (p + g) / 2;
        var c := RouteCompare(d, slots[m]);
        if c == 0 {
          return true, m;
        } else if c < 0 {
          assert Less(d, DestOf(slots[m]));
          g := m - 1;
        } else {
          assert Less(DestOf(slots[m]), d);
          p := m + 1;
        }
      }
      k := p;
      found := false;
      assert forall i :: 0 <= i < |slots| ==> DestOf(slots[i]) != d;
    }

    /** find_route within a slot. */
    method FindRouteIn(c: Chain, neigh: Neighbour, nexthop: nat) returns (j: nat)
      ensures j == FindRoute(c, neigh, nexthop)
    {
      j := 0;
      ghost var rest := c;
      while j < |c| && !(c[j].neigh == neigh && c[j].nexthop == nexthop)
        invariant j <= |c| && rest == c[j..]
        invariant j + FindRoute(rest, neigh, nexthop) == FindRoute(c, neigh, nexthop)
      {
        rest := rest[1..];
        j := j + 1;
      }
    }

    /** find_source without creation. */
    method FindSource(key: SourceKey) returns (k: nat)
      requires Rep()
      ensures k <= |srcs| && (k < |srcs| <==> key in node.srcs)
      ensures k < |srcs| ==> srcs[k].0 == key && srcs[k].1 == node.srcs[key]
    {
      k := 0;
      while k < |srcs| && srcs[k].0 != key
        invariant k <= |srcs| && forall i :: 0 <= i < k ==> srcs[i].0 != key
      {
        k := k + 1;
      }
      assert key in node.srcs ==> Listed(srcs, key);
    }

    method FindXroute(d: Dest) returns (k: nat)
      requires Rep()
      ensures k <= |xroutes| && (k < |xroutes| <==> d in node.xroutes)
      ensures k < |xroutes| ==> xroutes[k].0 == d && xroutes[k].1 == node.xroutes[d]
    {
      k := 0;
      while k < |xroutes| && xroutes[k].0 != d
        invariant k <= |xroutes| && forall i :: 0 <= i < k ==> xroutes[i].0 != d
      {
        k := k + 1;
      }
      assert d in node.xroutes ==> Listed(xroutes, d);
    }

    method IsFeasible(key: SourceKey, seqno: int, refmetric: nat) returns (b: bool)
      requires Rep()
      ensures b == UpdateFeasible(node.srcs, now, key, seqno, refmetric)
    {
      var k := FindSource(key);
      if k == |srcs| {
        return true;
      }
      var s := srcs[k].1;
      b := || Stale(s, now) || refmetric >= INFINITY
           || SeqnoCompare(Wire(seqno), Wire(s.seqno)) > 0
           || (Wire(seqno) == Wire(s.seqno) && refmetric < s.metric);
    }

    method FindBest(c: Chain, feasible: bool, exclude: Option<Neighbour>) returns (best: nat)
      requires Rep() && c != []
      ensures best == BestIndex(node, c, feasible, exclude)
    {
      best := 0;
      var i := 1;
      while i < |c|
        invariant best < |c| && 1 <= i <= |c|
        invariant BestFrom(node, c, feasible, exclude, i, best) == BestIndex(node, c, feasible, exclude)
      {
        var ok := !RouteExpired(c[i], now);
        if ok && feasible {
          ok := IsFeasible(c[i].src, c[i].seqno, c[i].refmetric);
        }
        if ok && (exclude.None? || c[i].neigh != exclude.value) && RouteMetric(c[i]) < RouteMetric(c[best]) {
          best := i;
        }
        i := i + 1;
      }
    }

    // ----- sources ------------------------------------------------------------------

    /** find_source with creation. */
    method EnsureSource(key: SourceKey, seqno: int)
      requires Rep()
      modifies this`srcs, this`node
      ensures Rep() && node == old(node).(srcs := FoundSource(old(node), key, seqno))
    {
      var k := FindSource(key);
      if k == |srcs| {
        var s := Source(seqno, INFINITY, now, 0);
        ListsCons(srcs, node.srcs, key, s);
        srcs := [(key, s)] + srcs;
        node := node.(srcs := node.srcs[key := s]);
      }
    }

    /** retain_source and release_source. */
    method Retain(key: SourceKey, delta: int)
      requires Rep()
      modifies this`srcs, this`node
      ensures Rep() && node == old(node).(srcs := Retained(old(node).srcs, key, delta))
    {
      hide SlotsSorted, SlotsShow, Lists;
      var k := FindSource(key);
      if k < |srcs| {
        var s := srcs[k].1.(routeCount := srcs[k].1.routeCount + delta);
        ListsSet(srcs, node.srcs, k, s);
        srcs := srcs[k := (key, s)];
        node := node.(srcs := node.srcs[key := s]);
      }
    }

    // ----- chains -------------------------------------------------------------------

    method SetChain(k: nat, c: Chain)
      requires Rep() && k < |slots| && Uniform(c, DestOf(slots[k]))
      modifies this`slots, this`node
      ensures Rep() && slots == old(slots)[k := c] && c != []
      ensures node == WithChain(old(node), DestOf(old(slots)[k]), c)
    {
      ReplaceSlot(slots, node.chains, k, c);
      node := WithChain(node, DestOf(slots[k]), c);
      hide SlotsSorted, SlotsShow, Lists;
      slots := slots[k := c];
    }

    method DropSlot(k: nat)
      requires Rep() && k < |slots|
      modifies this`slots, this`node
      ensures Rep() && slots == Removed(old(slots), k)
      ensures node == WithChain(old(node), DestOf(old(slots)[k]), [])
    {
      RemoveShown(slots, node.chains, k);
      node := WithChain(node, DestOf(slots[k]), []);
      hide SlotsSorted, SlotsShow, Lists;
      slots := Removed(slots, k);
    }

    /** insert_route: a new slot at its place, or the end of an existing chain. */
    method InsertRoute(r: Route) returns (k: nat)
      requires Rep() && !r.installed
      modifies this`slots, this`node
      ensures Rep() && k < |slots| && slots[k] == ChainOf(old(node), r.src.dest) + [r]
      ensures DestOf(slots[k]) == r.src.dest
      ensures node == WithChain(old(node), r.src.dest, ChainOf(old(node), r.src.dest) + [r])
    {
      var d := r.src.dest;
      var found;
      found, k := FindRouteSlot(d);
      if found {
        SetChain(k, slots[k] + [r]);
      } else {
        assert [] + [r] == [r];
        InsertShown(slots, node.chains, k, d, [r]);
        InsertedAt(slots, k, [r], 0);
        hide SlotsSorted, SlotsShow, Lists, InsertionPoint, Inserted;
        node := WithChain(node, d, [r]);
        slots := Inserted(slots, k, [r]);
      }
    }

    /** consider_route on the route at `j` of slot `k`. */
    method ConsiderRoute(k: nat, j: nat)
      requires Rep() && k < |slots| && j < |slots[k]|
      modifies this`slots, this`node
      ensures Rep() && |slots| == |old(slots)| && slots == old(slots)[k := slots[k]]
      ensures var d := DestOf(old(slots)[k]);
              && slots[k] == Considered(old(node), d, old(slots)[k], j)
              && Uniform(slots[k], d)
              && node == WithChain(old(node), d, slots[k])
    {
      var c, d := slots[k], DestOf(slots[k]);
      ConsideredReselects(node, d, c, j);
      ReselectedUniform(node, d, c, Considered(node, d, c, j));
      SlotKept(node, slots, k);
      if c[j].installed {
        return;
      }
      var feasible := IsFeasible(c[j].src, c[j].seqno, c[j].refmetric);
      if !feasible {
        return;
      }
      var x := FindXroute(d);
      if x < |xroutes| && (config.allowDuplicates < 0 || xroutes[x].1 >= config.allowDuplicates) {
        return;
      }
      hide SlotsSorted, SlotsShow, Lists, Reselected, RouteMetric, Uniform, UpdateFeasible, Installed, Switched;
      if !c[0].installed {
        SetChain(k, Installed(c, j));
      } else if RouteMetric(c[j]) >= INFINITY {
        return;
      } else if RouteMetric(c[0]) >= INFINITY || RouteMetric(c[0]) >= RouteMetric(c[j]) + 64 {
        SetChain(k, Switched(c, j));
      }
    }

    /** route_changed */
    method RouteChanged(k: nat, j: nat, oldMetric: nat)
      requires Rep() && k < |slots| && j < |slots[k]|
      modifies this`slots, this`node
      ensures Rep() && |slots| == |old(slots)| && slots == old(slots)[k := slots[k]]
      ensures var d := DestOf(old(slots)[k]);
              && slots[k] == AfterChange(old(node), d, old(slots)[k], j, oldMetric)
              && Uniform(slots[k], d)
              && node == WithChain(old(node), d, slots[k])
    {
      SlotKept(node, slots, k);
      var c := slots[k];
      assert Uniform(c, DestOf(c));
      hide Considered, BestIndex, SlotsSorted, SlotsShow, Lists, RouteMetric, Uniform;
      if c[j].installed {
        if RouteMetric(c[j]) > oldMetric {
          var b := FindBest(c, true, None);
          if RouteMetric(c[b]) <= RouteMetric(c[j]) - 96 {
            ConsiderRoute(k, b);
          }
        }
      } else {
        ConsiderRoute(k, j);
      }
    }

    /** route_lost */
    method RouteLost(d: Dest)
      requires Rep()
      modifies this`slots, this`node
      ensures Rep() && |slots| == |old(slots)|
      ensures node == WithChain(old(node), d, AfterLoss(old(node), d, ChainOf(old(node), d)))
      ensures forall i :: 0 <= i < |slots| && DestOf(old(slots)[i]) != d ==> slots[i] == old(slots)[i]
      ensures Total(slots) == Total(old(slots))
    {
      assert d !in node.chains ==> node.chains - {d} == node.chains;
      var found, k := FindRouteSlot(d);
      if found {
        assert slots[k] != [];
        hide Considered, BestIndex, SlotsSorted, SlotsShow, Lists, Uniform;
        var b := FindBest(slots[k], true, None);
        ghost var before := slots;
        ConsiderRoute(k, b);
        TotalReplaced(before, k, slots[k]);
      }
    }

    // ----- operations ---------------------------------------------------------------

    /** The fields update_route writes into a known route, and whether that uninstalls it. */
    method RecordUpdate(was: Route, m: Received, feasible: bool) returns (r: Route, lost: bool)
      requires Rep()
      ensures r == Recorded(node, was, m, feasible) && lost == (was.installed && !r.installed)
    {
      var key := KeyOf(m);
      r, lost := was, false;
      if !feasible && r.installed && key != r.src {
        r, lost := r.(installed := false), true;
      }
      r := r.(src := key);
      if (feasible || config.keepUnfeasible) && m.refmetric < INFINITY {
        r := r.(time := now);
      }
      r := r.(seqno := m.seqno);
      r := r.(refmetric := m.refmetric, cost := m.cost % 0x1_0000, addMetric := m.addMetric);
      r := r.(holdTime := HoldTime(m.interval));
    }

    /** route_changed, then route_lost when the route was uninstalled. */
    method Reselect(k: nat, j: nat, before: nat, lost: bool)
      requires Rep() && k < |slots| && j < |slots[k]|
      modifies this`slots, this`node
      ensures Rep()
      ensures var n, d := old(node), DestOf(old(slots)[k]);
              var c2 := AfterChange(n, d, old(slots)[k], j, before);
              node == WithChain(n, d, if lost then AfterLoss(n, d, c2) else c2)
    {
      ghost var n := node;
      var d := DestOf(slots[k]);
      hide NodeInv, AfterChange, AfterLoss, SlotsSorted, SlotsShow, Lists, Uniform;
      RouteChanged(k, j, before);
      if lost {
        ghost var c2 := slots[k];
        AfterLossView(n, node, d, c2);
        RouteLost(d);
        WithChainTwice(n, d, c2, AfterLoss(n, d, c2));
      }
    }

    /** Finds the source of an update to a known route and writes the route. */
    method StoreUpdate(m: Received, k: nat, j: nat) returns (lost: bool)
      requires Valid() && k < |slots| && DestOf(slots[k]) == m.dest && j < |slots[k]|
      modifies this`slots, this`srcs, this`node
      ensures Rep() && |slots| == |old(slots)|
      ensures var n, c, key := old(node), old(slots)[k], KeyOf(m);
              var n1 := n.(srcs := FoundSource(n, key, m.seqno));
              var r := Recorded(n, c[j], m, UpdateFeasible(n1.srcs, n.now, key, m.seqno, m.refmetric));
              && lost == (c[j].installed && !r.installed)
              && slots[k] == c[j := r] && DestOf(slots[k]) == m.dest
              && node == WithChain(n1.(srcs := Retained(n1.srcs, key, 1)), m.dest, c[j := r])
    {
      ghost var n := node;
      var c, key := slots[k], KeyOf(m);
      assert ChainOf(n, m.dest) == c;
      if c[j].src.id == m.id {
        SameSource(n, m, j);
      }
      hide NodeInv, UpdateFeasible, FoundSource, Retained, SlotsSorted, SlotsShow, Lists, Recorded, WithChain;
      if c[j].src.id != m.id {
        EnsureSource(key, m.seqno);
      }
      ghost var n1 := n.(srcs := FoundSource(n, key, m.seqno));
      var feasible := IsFeasible(key, m.seqno, m.refmetric);
      var r;
      r, lost := RecordUpdate(c[j], m, feasible);
      RecordedView(n, n1, c[j], m, feasible);
      UniformReplaced(slots, k, j, r);
      SetChain(k, c[j := r]);
      WithChainSources(n1, m.dest, c[j := r], Retained(n1.srcs, key, 1));
      Retain(key, 1);
    }

    /** The part of update_route that concerns a known route, at `j` of slot `k`. */
    method UpdateKnownRoute(m: Received, k: nat, j: nat)
      requires Valid() && m.id != myid && k < |slots| && DestOf(slots[k]) == m.dest
      requires j < |slots[k]| && slots[k][j].neigh == m.neigh
      modifies this`slots, this`srcs, this`node
      ensures Valid() && node == UpdateKnown(old(node), m, j)
    {
      ghost var n := node;
      var was := slots[k][j];
      assert ChainOf(n, m.dest) == slots[k];
      UpdateKnownKeeps(n, m, j);
      hide NodeInv, LocalStep, UpdateFeasible, RouteMetric, AfterChange, AfterLoss, FoundSource, Retained, UpdateKnown;
      hide SlotsSorted, SlotsShow, Lists, Recorded, WithChain;
      var lost := StoreUpdate(m, k, j);
      ghost var n2 := n.(srcs := Retained(FoundSource(n, KeyOf(m), m.seqno), KeyOf(m), 1));
      ghost var c1, before := slots[k], RouteMetric(was);
      WithChainSources(n2, m.dest, c1, n2.srcs);
      AfterChangeView(n2, node, m.dest, c1, j, before);
      ghost var c2 := AfterChange(n2, m.dest, c1, j, before);
      AfterLossView(n2, node, m.dest, c2);
      Reselect(k, j, RouteMetric(was), lost);
      ghost var c3 := if lost then AfterLoss(n2, m.dest, c2) else c2;
      WithChainTwice(n2, m.dest, c1, c3);
      WithChainSources(n2, m.dest, c3, Retained(n2.srcs, was.src, -1));
      Retain(was.src, -1);
      KnownResult(n, m, j, c3, n.(srcs := KnownSources(n, m, j)));
    }

    /** Inserts a new route and considers it. */
    method Announce(r: Route)
      requires Rep() && !r.installed
      modifies this`slots, this`node
      ensures Rep()
      ensures var n, d := old(node), r.src.dest;
              var c := ChainOf(n, d);
              node == WithChain(n, d, Considered(n, d, c + [r], |c|))
    {
      ghost var n := node;
      var d := r.src.dest;
      hide Considered, SlotsSorted, SlotsShow, Lists, Uniform;
      var k := InsertRoute(r);
      ghost var c1 := slots[k];
      ConsideredView(n, node, d, c1, |c1| - 1);
      ConsiderRoute(k, |slots[k]| - 1);
      WithChainTwice(n, d, c1, slots[k]);
    }

    /** The part of update_route that concerns a new route. */
    method UpdateNewRoute(m: Received)
      requires Valid() && m.id != myid
      modifies this`slots, this`srcs, this`node
      ensures Valid() && node == UpdateNew(old(node), m)
    {
      var key := KeyOf(m);
      UpdateNewKeeps(node, m);
      hide NodeInv, LocalStep, UpdateFeasible, Considered, FoundSource, Retained, SlotsSorted, SlotsShow, Lists;
      EnsureSource(key, m.seqno);
      var feasible := IsFeasible(key, m.seqno, m.refmetric);
      if m.refmetric >= INFINITY || (!feasible && !config.keepUnfeasible) {
        return;
      }
      Retain(key, 1);
      Announce(Route(key, m.seqno, m.refmetric, m.cost % 0x1_0000, m.addMetric, m.neigh, m.nexthop,
                     now, HoldTime(m.interval), false));
    }

    /** update_route */
    method UpdateRoute(m: Received, martian: bool)
      requires Valid()
      modifies this`slots, this`srcs, this`node
      ensures Valid() && node == BabelNode.UpdateRoute(old(node), m, martian)
    {
      hide NodeInv, UpdateKnown, UpdateNew, SlotsSorted, SlotsShow, Lists;
      if m.id == myid || martian || m.addMetric >= INFINITY {
        return;
      }
      var found, k := FindRouteSlot(m.dest);
      if found {
        var j := FindRouteIn(slots[k], m.neigh, m.nexthop);
        if j < |slots[k]| {
          UpdateKnownRoute(m, k, j);
        } else {
          UpdateNewRoute(m);
        }
      } else {
        UpdateNewRoute(m);
      }
    }

    /** Unlinks the route at `j` of slot `k`; an empty slot goes. */
    method Unlink(k: nat, j: nat)
      requires Rep() && k < |slots| && j < |slots[k]|
      modifies this`slots, this`node
      ensures Rep() && k <= |slots| <= |old(slots)|
      ensures var c, d := old(slots)[k], DestOf(old(slots)[k]);
              && node == WithChain(old(node), d, c[..j] + c[j + 1..])
              && (forall i :: 0 <= i < k ==> slots[i] == old(slots)[i] && DestOf(slots[i]) != d)
      ensures Total(slots) == Total(old(slots)) - 1
    {
      var c, d := slots[k], DestOf(slots[k]);
      var rest := c[..j] + c[j + 1..];
      assert rest != [] ==> Uniform(rest, d);
      BelowDiffer(slots, k);
      TotalReplaced(slots, k, rest);
      TotalRemoved(slots, k);
      hide SlotsSorted, SlotsShow, Lists, Uniform, Less, Total;
      if rest == [] {
        DropSlot(k);
      } else {
        SetChain(k, rest);
      }
    }

    /** Unlinks a route and, if it was installed, looks for another one. */
    method Withdraw(k: nat, j: nat)
      requires Rep() && k < |slots| && j < |slots[k]|
      modifies this`slots, this`node
      ensures Rep()
      ensures var n, c, d := old(node), old(slots)[k], DestOf(old(slots)[k]);
              node == WithChain(n, d, Remaining(n, d, c, j))
      ensures k <= |slots| <= |old(slots)| && (forall i :: 0 <= i < k ==> slots[i] == old(slots)[i])
      ensures Total(slots) == Total(old(slots)) - 1
    {
      ghost var n := node;
      var c, d := slots[k], DestOf(slots[k]);
      hide AfterLoss, SlotsSorted, SlotsShow, Lists, Total, DestOf;
      ghost var rest := c[..j] + c[j + 1..];
      Unlink(k, j);
      if c[j].installed {
        AfterLossView(n, node, d, rest);
        RouteLost(d);
        WithChainTwice(n, d, rest, AfterLoss(n, d, rest));
      }
    }

    /** flush_route */
    method FlushRoute(k: nat, j: nat)
      requires Valid() && k < |slots| && j < |slots[k]|
      modifies this`slots, this`srcs, this`node
      ensures Valid() && node == BabelNode.FlushRoute(old(node), DestOf(old(slots)[k]), j)
      ensures k <= |slots| <= |old(slots)| && (forall i :: 0 <= i < k ==> slots[i] == old(slots)[i])
      ensures Total(slots) == Total(old(slots)) - 1
    {
      hide NodeInv, LocalStep, AfterLoss, Retained, SlotsSorted, SlotsShow, Lists, Total, DestOf, WithChain;
      hide BabelNode.FlushRoute, Remaining, ChainOf;
      SlotChain(k);
      var src := slots[k][j].src;
      FlushRouteKeeps(node, DestOf(slots[k]), j);
      FlushResult(node, DestOf(slots[k]), j);
      Withdraw(k, j);
      Retain(src, -1);
    }

    /** The inner walk of the flush loops. */
    method FindMatch(q: Match, c: Chain) returns (j: nat)
      ensures j <= |c| && (j < |c| ==> Matches(q, c[j]))
      ensures j == |c| <==> NoMatch(q, c)
    {
      j := 0;
      while j < |c| && !Matches(q, c[j])
        invariant j <= |c| && forall i :: 0 <= i < j ==> !Matches(q, c[i])
      {
        j := j + 1;
      }
    }

    /** flush_neighbour_routes and flush_interface_routes.  The slot is walked again after each
        flush, which may have reordered or removed it. */
    method FlushMatching(q: Match)
      requires Valid()
      modifies this`slots, this`srcs, this`node
      ensures Valid()
      ensures forall d, r :: Routes(ChainOf(node, d))[r] == if Matches(q, r) then 0 else Routes(ChainOf(old(node), d))[r]
    {
      hide NodeInv, Routes, Matches, NoMatch, Spared, Total, BabelNode.FlushRoute;
      SparedSame(q, node);
      var i := 0;
      while i < |slots|
        invariant Valid() && i <= |slots|
        invariant forall a :: 0 <= a < i ==> NoMatch(q, slots[a])
        invariant Spared(q, old(node), node)
        decreases Total(slots), |slots| - i
      {
        var j := FindMatch(q, slots[i]);
        if j < |slots[i]| {
          ghost var n := node;
          FlushSpares(q, old(node), n, DestOf(slots[i]), j);
          FlushRoute(i, j);
        } else {
          i := i + 1;
        }
      }
      NoneLeft(q, slots, node.chains);
      FlushExact(q, old(node), node);
    }

    /** Stores a changed route and reselects if its metric changed. */
    method ReplaceRoute(k: nat, j: nat, r: Route, changed: bool, before: nat)
      requires Rep() && k < |slots| && j < |slots[k]| && r.src == slots[k][j].src
      modifies this`slots, this`node
      ensures Rep()
      ensures var n, d, c1 := old(node), DestOf(old(slots)[k]), old(slots)[k][j := r];
              node == WithChain(n, d, if changed then AfterChange(n, d, c1, j, before) else c1)
    {
      ghost var n := node;
      var d, c1 := DestOf(slots[k]), slots[k][j := r];
      UniformReplaced(slots, k, j, r);
      hide AfterChange, SlotsSorted, SlotsShow, Lists, Uniform;
      SetChain(k, c1);
      if changed {
        AfterChangeView(n, node, d, c1, j, before);
        RouteChanged(k, j, before);
        WithChainTwice(n, d, c1, slots[k]);
      }
    }

    /** The part of update_route_metric that retracts an expired route. */
    method RetractExpired(k: nat, j: nat, ghost cost: nat, ghost addMetric: nat)
      requires Rep() && k < |slots| && j < |slots[k]| && slots[k][j].refmetric < INFINITY
      requires RouteExpired(slots[k][j], now)
      modifies this`slots, this`node
      ensures Rep() && node == BabelNode.UpdateRouteMetric(old(node), DestOf(old(slots)[k]), j, cost, addMetric)
    {
      var r, before := slots[k][j], RouteMetric(slots[k][j]);
      assert ChainOf(node, DestOf(slots[k])) == slots[k];
      var x := FindSource(r.src);
      var r' := WithMetric(r.(seqno := if x < |srcs| then srcs[x].1.seqno + 1 else r.seqno), INFINITY, INFINITY, 0);
      assert r' == Expired(node.srcs, r) && r'.src == r.src;
      hide AfterChange, RouteMetric, SlotsSorted, SlotsShow, Lists, DestOf, Expired, WithMetric;
      ReplaceRoute(k, j, r', before < INFINITY, before);
    }

    /** The part of update_route_metric that refreshes cost and filter metric. */
    method RefreshMetric(k: nat, j: nat, cost: nat, addMetric: nat)
      requires Rep() && k < |slots| && j < |slots[k]| && !RouteExpired(slots[k][j], now)
      modifies this`slots, this`node
      ensures Rep() && node == BabelNode.UpdateRouteMetric(old(node), DestOf(old(slots)[k]), j, cost, addMetric)
    {
      var r := slots[k][j];
      assert ChainOf(node, DestOf(slots[k])) == slots[k];
      hide AfterChange, RouteMetric, SlotsSorted, SlotsShow, Lists, DestOf;
      var r' := WithMetric(r, r.refmetric, cost, addMetric % 0x1_0000);
      ReplaceRoute(k, j, r', RouteMetric(r') != RouteMetric(r), RouteMetric(r));
    }

    /** update_route_metric */
    method UpdateRouteMetric(k: nat, j: nat, cost: nat, addMetric: nat)
      requires Valid() && k < |slots| && j < |slots[k]|
      modifies this`slots, this`node
      ensures Valid() && node == BabelNode.UpdateRouteMetric(old(node), DestOf(old(slots)[k]), j, cost, addMetric)
    {
      assert ChainOf(node, DestOf(slots[k])) == slots[k];
      UpdateRouteMetricKeeps(node, DestOf(slots[k]), j, cost, addMetric);
      if RouteExpired(slots[k][j], now) && slots[k][j].refmetric >= INFINITY {
        return;
      }
      hide NodeInv, LocalStep, BabelNode.UpdateRouteMetric, SlotsSorted, SlotsShow, Lists, DestOf;
      if RouteExpired(slots[k][j], now) {
        RetractExpired(k, j, cost, addMetric);
      } else {
        RefreshMetric(k, j, cost, addMetric);
      }
    }

    /** What retract_neighbour_routes does to one route. */
    method RetractRoute(k: nat, j: nat)
      requires Valid() && k < |slots| && j < |slots[k]|
      modifies this`slots, this`node
      ensures Valid() && node == BabelNode.RetractRoute(old(node), DestOf(old(slots)[k]), j)
    {
      var d, r, before := DestOf(slots[k]), slots[k][j], RouteMetric(slots[k][j]);
      assert ChainOf(node, d) == slots[k];
      RetractRouteKeeps(node, d, j);
      hide NodeInv, LocalStep, AfterChange, RouteMetric, SlotsSorted, SlotsShow, Lists, DestOf;
      if r.refmetric != INFINITY {
        ReplaceRoute(k, j, WithMetric(r, INFINITY, INFINITY, 0), before != INFINITY, before);
      }
    }

    // ----- exported routes ----------------------------------------------------------

    /** add_xroute; `changed` when the route is new or has become better. */
    method SetXroute(d: Dest, metric: nat) returns (changed: bool)
      requires Rep()
      modifies this`xroutes, this`node
      ensures Rep() && changed == !(d in old(node).xroutes && old(node).xroutes[d] <= metric)
      ensures node == if changed then old(node).(xroutes := old(node).xroutes[d := metric]) else old(node)
    {
      hide SlotsSorted, SlotsShow, Lists;
      var k := FindXroute(d);
      if k < |xroutes| {
        if xroutes[k].1 <= metric {
          return false;
        }
        ListsSet(xroutes, node.xroutes, k, metric);
        xroutes := xroutes[k := (d, metric)];
      } else {
        ListsSnoc(xroutes, node.xroutes, d, metric);
        xroutes := xroutes + [(d, metric)];
      }
      node := node.(xroutes := node.xroutes[d := metric]);
      changed := true;
    }

    /** xroute_add_new_route with the metric the filter gave. */
    method AddXroute(d: Dest, metric: nat, martian: bool)
      requires Valid()
      modifies this`slots, this`xroutes, this`node
      ensures Valid() && node == BabelNode.AddXroute(old(node), d, metric, martian)
    {
      AddXrouteInv(node, d, metric, martian);
      if martian || metric >= INFINITY {
        return;
      }
      hide NodeInv, SlotsSorted, SlotsShow, Lists;
      var changed := SetXroute(d, metric);
      if !changed {
        return;
      }
      var found, k := FindRouteSlot(d);
      if found && (config.allowDuplicates < 0 || metric < config.allowDuplicates) {
        UninstallHead(k);
      }
    }

    /** uninstall_route on the head of a slot. */
    method UninstallHead(k: nat)
      requires Rep() && k < |slots|
      modifies this`slots, this`node
      ensures Rep() && node == WithChain(old(node), DestOf(old(slots)[k]), Uninstalled(old(slots)[k]))
    {
      assert slots[k] != [];
      UniformReplaced(slots, k, 0, slots[k][0].(installed := false));
      hide SlotsSorted, SlotsShow, Lists, Uniform;
      SetChain(k, slots[k][0 := slots[k][0].(installed := false)]);
    }

    /** flush_xroute: the last entry of the array takes the free place. */
    method FlushXroute(k: nat)
      requires Valid() && k < |xroutes|
      modifies this`xroutes, this`node
      ensures Valid() && node == BabelNode.FlushXroute(old(node), old(xroutes)[k].0)
    {
      FlushXrouteKeeps(node, xroutes[k].0);
      ListsSwapOut(xroutes, node.xroutes, k);
      hide NodeInv, LocalStep, SlotsSorted, SlotsShow, Lists;
      node := BabelNode.FlushXroute(node, xroutes[k].0);
      xroutes := xroutes[k := xroutes[|xroutes| - 1]];
      xroutes := xroutes[..|xroutes| - 1];
    }

    // ----- expiry and advertisement -------------------------------------------------

    /** expire_sources: walks the list and unlinks what is old and not in use. */
    method ExpireSources()
      requires Valid()
      modifies this`srcs, this`node
      ensures Valid() && node == BabelNode.ExpireSources(old(node))
    {
      ghost var before := srcs;
      ExpireSourcesInv(node);
      SweptLists(srcs, node.srcs, now);
      hide NodeInv, SlotsSorted, SlotsShow, Lists, Sweeping;
      var i := 0;
      assert Sweeping(before, srcs, i, now) by { SweepStart(srcs, now); }
      while i < |srcs|
        invariant i <= |srcs| && Sweeping(before, srcs, i, now) && node == old(node)
        decreases |srcs| - i
      {
        var s := srcs[i].1;
        if s.time > now {
          s := s.(time := now);
        }
        SweepStep(before, srcs, i, now);
        if Stale(s, now) && s.routeCount <= 0 {
          srcs := srcs[..i] + srcs[i + 1..];
        } else {
          srcs := srcs[i := (srcs[i].0, s)];
          i := i + 1;
        }
      }
      SweepEnd(before, srcs, now);
      node := BabelNode.ExpireSources(node);
    }

    /** update_source */
    method UpdateSource(key: SourceKey, seqno: int, metric: nat)
      requires Rep() && key in node.srcs
      modifies this`srcs, this`node
      ensures Rep()
      ensures node == old(node).(srcs := old(node).srcs[key := UpdatedSource(old(node).srcs[key], now, seqno, metric)])
    {
      hide SlotsSorted, SlotsShow, Lists, SeqnoCompare, Wire;
      var k := FindSource(key);
      assert node.srcs == node.srcs[key := srcs[k].1];
      if metric >= INFINITY {
        return;
      }
      var s := srcs[k].1;
      if Stale(s, now) || SeqnoCompare(Wire(s.seqno), Wire(seqno)) < 0
         || (Wire(s.seqno) == Wire(seqno) && s.metric > metric) {
        s := s.(seqno := seqno, metric := metric);
      }
      s := s.(time := now);
      ListsSet(srcs, node.srcs, k, s);
      srcs := srcs[k := (key, s)];
      node := node.(srcs := node.srcs[key := s]);
    }

    /** The part of flushupdates that concerns one destination. */
    method Advertise(d: Dest, mode: SendMode) returns (a: Option<Advert>)
      requires Valid()
      modifies this`srcs, this`node
      ensures Valid() && (node, a) == BabelNode.Advertise(old(node), d, mode)
    {
      AdvertiseInv(node, d, mode);
      var x := FindXroute(d);
      var found, k := FindRouteSlot(d);
      var usable := found && slots[k][0].installed;
      assert usable == HasInstalled(node, d);
      hide NodeInv, SlotsSorted, SlotsShow, Lists, RouteMetric, RouteMetricNoninterfering, UpdatedSource;
      if x < |xroutes| && (!usable || xroutes[x].1 <= config.kernelMetric) {
        a := Sent(myid, d, myseqno, xroutes[x].1, mode);
      } else if usable {
        var r := slots[k][0];
        var metric := if mode.interferes then RouteMetric(r) else RouteMetricNoninterfering(r, mode.diversityFactor);
        var s := FindSource(r.src);
        if mode.heldBack || s == |srcs| {
          return None;
        }
        UpdateSource(r.src, r.seqno, metric);
        a := Sent(r.src.id, d, r.seqno, metric, mode);
      } else {
        a := Sent(myid, d, myseqno, INFINITY, mode);
      }
    }

    // ----- requests -----------------------------------------------------------------

    /** The choice of a successor in handle_request. */
    method FindSuccessor(d: Dest, from: Neighbour) returns (to: Option<Neighbour>)
      requires Rep()
      ensures to == RequestWalk.Successor(node, d, from)
    {
      var found, k := FindRouteSlot(d);
      if !found {
        return None;
      }
      SlotChain(k);
      var c := slots[k];
      hide SlotsSorted, SlotsShow, Lists, RouteMetric, BestIndex;
      to := None;
      if c[0].installed && RouteMetric(c[0]) < INFINITY {
        to := Some(c[0].neigh);
      }
      if to.None? || to.value == from {
        var b := FindBest(c, false, Some(from));
        if RouteMetric(c[b]) < INFINITY {
          to := Some(c[b].neigh);
        }
      }
      if to.Some? && to.value == from {
        to := None;
      }
    }

    /** find_installed_route */
    method FindInstalledRoute(d: Dest) returns (r: Option<Route>)
      requires Rep()
      ensures r == RequestWalk.InstalledRoute(node, d)
    {
      var found, k := FindRouteSlot(d);
      if found {
        SlotChain(k);
      }
      r := if found && slots[k][0].installed then Some(slots[k][0]) else None;
    }

    /** The part of handle_request for a destination the router exports itself. */
    method AnswerOwn(from: Neighbour, q: RequestWalk.Request, ghost redundant: bool) returns (a: RequestWalk.Action)
      requires Valid() && Is16(q.seqno) && RequestWalk.OwnRoute(node, q.dest)
      modifies this`myseqno, this`node
      ensures Valid() && (node, a) == RequestWalk.HandleRequest(old(node), from, q, redundant)
    {
      hide NodeInv, SlotsSorted, SlotsShow, Lists, SeqnoCompare, SeqnoMinus, RequestWalk.Successor;
      hide RequestWalk.InstalledRoute, RequestWalk.OwnRoute;
      if q.hopCount > 0 && q.id == myid {
        if SeqnoCompare(q.seqno, Wire(myseqno)) > 0 {
          if SeqnoMinus(q.seqno, Wire(myseqno)) > 100 {
            return RequestWalk.Silent;
          }
          ScalarsInv(node, now, myseqno + 1);
          myseqno := myseqno + 1;
          node := node.(now := now, myseqno := myseqno);
        }
      }
      a := RequestWalk.SendUpdate;
    }

    /** handle_request */
    method HandleRequest(from: Neighbour, q: RequestWalk.Request, redundant: bool) returns (a: RequestWalk.Action)
      requires Valid() && Is16(q.seqno)
      modifies this`myseqno, this`node
      ensures Valid() && (node, a) == RequestWalk.HandleRequest(old(node), from, q, redundant)
    {
      hide NodeInv, SlotsSorted, SlotsShow, Lists, SeqnoCompare, SeqnoMinus, RequestWalk.Successor;
      hide RequestWalk.InstalledRoute;
      var x := FindXroute(q.dest);
      var route := FindInstalledRoute(q.dest);
      InstalledRouteIs(node, q.dest);
      if x < |xroutes| && (route.None? || xroutes[x].1 <= config.kernelMetric) {
        a := AnswerOwn(from, q, redundant);
        return;
      }
      if route.Some? && (q.id != route.value.src.id || SeqnoCompare(q.seqno, Wire(route.value.seqno)) <= 0) {
        return RequestWalk.SendUpdate;
      }
      if q.hopCount <= 1 {
        return RequestWalk.Silent;
      }
      if route.Some? && q.id == route.value.src.id && SeqnoMinus(q.seqno, Wire(route.value.seqno)) > 100 {
        return RequestWalk.Silent;
      }
      if redundant {
        return RequestWalk.Silent;
      }
      var to := FindSuccessor(q.dest, from);
      a := if to.Some? then RequestWalk.Forward(to.value, q.hopCount - 1) else RequestWalk.Silent;
    }
  }
}
