/** Why runs are restricted to anchored steps: a run of three routers that satisfies every other
    condition and ends in a forwarding loop.

    Router 3 is the source.  Router 1 drops its route through 3 while its only other route, through
    2, has been retracted; with nothing installed it installs the retracted one.  Router 2 then
    switches to 1, and the update it sends, although unfeasible, is recorded on the installed
    route of 1. */
module LoopWitness {
  import opened Wrappers
  import opened BabelMetric
  import opened Seqno
  import opened BabelNode
  import opened BabelNetwork
  import opened LoopFreedom

  const D := Dest(0, 0)
  const KEY := SourceKey(3, D)
  const CONFIG := Config(false, -1, 0)
  const PLAIN := SendMode(true, 256, false, 0)

  function R(seqno: int, refmetric: nat, cost: nat, via: nat, installed: bool): Route {
    Route(KEY, seqno, refmetric, cost, 0, Neighbour(via, 0), 0, 0, 15, installed)
  }

  function N(id: nat, c: Chain, seqno: int, metric: nat, count: int): Node {
    Node(id, 0, 0, CONFIG, if c == [] then map[] else map[D := c], map[KEY := Source(seqno, metric, 0, count)], map[])
  }

  function Empty(id: nat): Node {
    Node(id, 0, 0, CONFIG, map[], map[], map[])
  }

  function Origin(seqno: int): Node {
    Node(3, seqno, 0, CONFIG, map[], map[], map[D := 0])
  }

  function Up(seqno: int, metric: nat, from: nat, cost: nat): Received {
    Received(3, D, seqno, metric, 0, Neighbour(from, 0), 0, cost, 0)
  }

  // ----- the single steps -----------------------------------------------------------

  lemma FirstRoute(id: nat, seqno: int, metric: nat, from: nat, cost: nat)
    requires id != 3 && metric < INFINITY && cost < 0x1_0000
    ensures UpdateRoute(Empty(id), Up(seqno, metric, from, cost), false)
         == N(id, [R(seqno, metric, cost, from, true)], seqno, INFINITY, 1)
  {
    var n, m := Empty(id), Up(seqno, metric, from, cost);
    var n2 := n.(srcs := map[KEY := Source(seqno, INFINITY, 0, 1)]);
    var c := [R(seqno, metric, cost, from, false)];
    assert FoundSource(n, KEY, seqno) == map[KEY := Source(seqno, INFINITY, 0, 0)];
    assert Retained(FoundSource(n, KEY, seqno), KEY, 1) == n2.srcs;
    assert [] + [NewRoute(n, m)] == c;
    assert Considered(n2, D, c, 0) == ToFront(c, 0) == [R(seqno, metric, cost, from, true)];
  }

  lemma OriginSends(seqno: int)
    ensures Advertise(Origin(seqno), D, PLAIN) == (Origin(seqno), Some(Advert(3, D, seqno, 0)))
  {
  }

  /** Advertising the head of a one- or two-route chain. */
  lemma RouterSends(id: nat, c: Chain, seqno: int, metric: nat, count: int, seqno': int, metric': nat)
    requires c != [] && c[0].installed && c[0].src == KEY
    requires UpdatedSource(Source(seqno, metric, 0, count), 0, c[0].seqno, RouteMetric(c[0])) == Source(seqno', metric', 0, count)
    ensures Advertise(N(id, c, seqno, metric, count), D, PLAIN)
         == (N(id, c, seqno', metric', count), Some(Advert(3, D, c[0].seqno, RouteMetric(c[0]))))
  {
    hide UpdatedSource;
    var n := N(id, c, seqno, metric, count);
    assert n.srcs[KEY := Source(seqno', metric', 0, count)] == map[KEY := Source(seqno', metric', 0, count)];
  }

  /** Router 1 finds a better route through 3. */
  lemma SwitchToSource()
    ensures UpdateRoute(N(1, [R(0, 10, 100, 2, true)], 0, INFINITY, 1), Up(1, 0, 3, 10), false)
         == N(1, [R(1, 0, 10, 3, true), R(0, 10, 100, 2, false)], 0, INFINITY, 2)
  {
    var c := [R(0, 10, 100, 2, true)];
    var n, m := N(1, c, 0, INFINITY, 1), Up(1, 0, 3, 10);
    var n2 := N(1, c, 0, INFINITY, 2);
    var c1 := c + [R(1, 0, 10, 3, false)];
    assert c[1..] == [];
    assert FindRoute(c, m.neigh, 0) == 1;
    assert Retained(n.srcs, KEY, 1) == n2.srcs;
    assert n.(srcs := n2.srcs) == n2;
    assert Considered(n2, D, c1, 1) == Switched(c1, 1);
    assert Switched(c1, 1) == [R(1, 0, 10, 3, true), R(0, 10, 100, 2, false)];
  }

  lemma SourceRetracted()
    ensures RetractRoute(N(2, [R(0, 0, 10, 3, true)], 0, 10, 1), D, 0)
         == N(2, [R(0, INFINITY, INFINITY, 3, true)], 0, 10, 1)
  {
    var c := [R(0, 0, 10, 3, true)];
    var n := N(2, c, 0, 10, 1);
    var c1 := [R(0, INFINITY, INFINITY, 3, true)];
    assert c[0 := WithMetric(c[0], INFINITY, INFINITY, 0)] == c1;
    assert BestIndex(n, c1, true, None) == 0;
    assert AfterChange(n, D, c1, 0, 10) == c1;
  }

  /** The retraction reaches router 1, whose installed route is another one. */
  lemma SpareRetracted()
    ensures UpdateRoute(N(1, [R(1, 0, 10, 3, true), R(0, 10, 100, 2, false)], 1, 10, 2), Up(0, INFINITY, 2, 100), false)
         == N(1, [R(1, 0, 10, 3, true), R(0, INFINITY, 100, 2, false)], 1, 10, 2)
  {
    var c := [R(1, 0, 10, 3, true), R(0, 10, 100, 2, false)];
    var n, m := N(1, c, 1, 10, 2), Up(0, INFINITY, 2, 100);
    var n2 := N(1, c, 1, 10, 3);
    var c1 := [R(1, 0, 10, 3, true), R(0, INFINITY, 100, 2, false)];
    assert c[1..] == [R(0, 10, 100, 2, false)];
    assert FindRoute(c[1..], m.neigh, 0) == 0;
    assert FindRoute(c, m.neigh, 0) == 1;
    assert Retained(n.srcs, KEY, 1) == n2.srcs && Retained(n2.srcs, KEY, -1) == n.srcs;
    assert n.(srcs := n2.srcs) == n2;
    assert c[1 := Recorded(n, c[1], m, true)] == c1;
    assert AfterChange(n2, D, c1, 1, 110) == Considered(n2, D, c1, 1) == c1;
  }

  /** Router 1 loses its route and installs the retracted one: the step that is not anchored. */
  lemma InstallRetracted()
    ensures FlushRoute(N(1, [R(1, 0, 10, 3, true), R(0, INFINITY, 100, 2, false)], 1, 10, 2), D, 0)
         == N(1, [R(0, INFINITY, 100, 2, true)], 1, 10, 1)
  {
    var c := [R(1, 0, 10, 3, true), R(0, INFINITY, 100, 2, false)];
    var n := N(1, c, 1, 10, 2);
    var rest := [R(0, INFINITY, 100, 2, false)];
    assert c[..0] + c[1..] == rest;
    assert BestIndex(n, rest, true, None) == 0;
    assert Considered(n, D, rest, 0) == ToFront(rest, 0) == [R(0, INFINITY, 100, 2, true)];
    assert Retained(n.srcs, KEY, -1) == map[KEY := Source(1, 10, 0, 1)];
  }

  /** Router 2 turns to router 1. */
  lemma SwitchToLoop()
    ensures UpdateRoute(N(2, [R(0, INFINITY, INFINITY, 3, true)], 0, 10, 1), Up(1, 10, 1, 10), false)
         == N(2, [R(1, 10, 10, 1, true), R(0, INFINITY, INFINITY, 3, false)], 0, 10, 2)
  {
    var c := [R(0, INFINITY, INFINITY, 3, true)];
    var n, m := N(2, c, 0, 10, 1), Up(1, 10, 1, 10);
    var n2 := N(2, c, 0, 10, 2);
    var c1 := c + [R(1, 10, 10, 1, false)];
    WireCompare(1, 0);
    assert c[1..] == [];
    assert FindRoute(c, m.neigh, 0) == 1;
    assert Retained(n.srcs, KEY, 1) == n2.srcs;
    assert n.(srcs := n2.srcs) == n2;
    assert Considered(n2, D, c1, 1) == Switched(c1, 1);
    assert Switched(c1, 1) == [R(1, 10, 10, 1, true), R(0, INFINITY, INFINITY, 3, false)];
  }

  /** The unfeasible update of router 2 is recorded on the installed route of router 1. */
  lemma UnfeasibleRecorded()
    ensures UpdateRoute(N(1, [R(0, INFINITY, 100, 2, true)], 1, 10, 1), Up(1, 20, 2, 10), false)
         == N(1, [R(1, 20, 10, 2, true)], 1, 10, 1)
  {
    var c := [R(0, INFINITY, 100, 2, true)];
    var n, m := N(1, c, 1, 10, 1), Up(1, 20, 2, 10);
    var n2 := N(1, c, 1, 10, 2);
    var c1 := [R(1, 20, 10, 2, true)];
    assert !UpdateFeasible(n.srcs, 0, KEY, 1, 20);
    assert FindRoute(c, m.neigh, 0) == 0;
    assert Retained(n.srcs, KEY, 1) == n2.srcs && Retained(n2.srcs, KEY, -1) == n.srcs;
    assert n.(srcs := n2.srcs) == n2;
    assert c[0 := Recorded(n, c[0], m, false)] == c1;
    assert AfterChange(n2, D, c1, 0, INFINITY) == c1;
  }

  // ----- the run --------------------------------------------------------------------

  const A0 := Empty(1)
  const A1 := N(1, [R(0, 10, 100, 2, true)], 0, INFINITY, 1)
  const A2 := N(1, [R(1, 0, 10, 3, true), R(0, 10, 100, 2, false)], 0, INFINITY, 2)
  const A3 := N(1, [R(1, 0, 10, 3, true), R(0, 10, 100, 2, false)], 1, 10, 2)
  const A4 := N(1, [R(1, 0, 10, 3, true), R(0, INFINITY, 100, 2, false)], 1, 10, 2)
  const A5 := N(1, [R(0, INFINITY, 100, 2, true)], 1, 10, 1)
  const A6 := N(1, [R(1, 20, 10, 2, true)], 1, 10, 1)
  const B0 := Empty(2)
  const B1 := N(2, [R(0, 0, 10, 3, true)], 0, INFINITY, 1)
  const B2 := N(2, [R(0, 0, 10, 3, true)], 0, 10, 1)
  const B3 := N(2, [R(0, INFINITY, INFINITY, 3, true)], 0, 10, 1)
  const B4 := N(2, [R(1, 10, 10, 1, true), R(0, INFINITY, INFINITY, 3, false)], 0, 10, 2)
  const B5 := N(2, [R(1, 10, 10, 1, true), R(0, INFINITY, INFINITY, 3, false)], 1, 20, 2)

  const M0 := Msg(3, Advert(3, D, 0, 0))
  const M1 := Msg(2, Advert(3, D, 0, 10))
  const M2 := Msg(3, Advert(3, D, 1, 0))
  const M3 := Msg(1, Advert(3, D, 1, 10))
  const M4 := Msg(2, Advert(3, D, 0, INFINITY))
  const M5 := Msg(2, Advert(3, D, 1, 20))

  function Three(a: Node, b: Node, o: Node, msgs: set<Msg>): Net {
    Net(map[1 := a, 2 := b, 3 := o], msgs)
  }

  function To(a: nat, m: Msg, cost: nat): Step {
    Deliver(a, m, 0, 0, 0, cost, 0, false)
  }

  const NETS: seq<Net> := [
    Three(A0, B0, Origin(0), {}),
    Three(A0, B0, Origin(0), {M0}),
    Three(A0, B1, Origin(0), {M0}),
    Three(A0, B2, Origin(0), {M0, M1}),
    Three(A1, B2, Origin(0), {M0, M1}),
    Three(A1, B2, Origin(1), {M0, M1}),
    Three(A1, B2, Origin(1), {M0, M1, M2}),
    Three(A2, B2, Origin(1), {M0, M1, M2}),
    Three(A3, B2, Origin(1), {M0, M1, M2, M3}),
    Three(A3, B3, Origin(1), {M0, M1, M2, M3}),
    Three(A3, B3, Origin(1), {M0, M1, M2, M3, M4}),
    Three(A4, B3, Origin(1), {M0, M1, M2, M3, M4}),
    Three(A5, B3, Origin(1), {M0, M1, M2, M3, M4}),
    Three(A5, B4, Origin(1), {M0, M1, M2, M3, M4}),
    Three(A5, B5, Origin(1), {M0, M1, M2, M3, M4, M5}),
    Three(A6, B5, Origin(1), {M0, M1, M2, M3, M4, M5})]

  const STEPS: seq<Step> := [
    Send(3, D, PLAIN),
    To(2, M0, 10),
    Send(2, D, PLAIN),
    To(1, M1, 100),
    NewSeqno(3),
    Send(3, D, PLAIN),
    To(1, M2, 10),
    Send(1, D, PLAIN),
    Retract(2, D, 0),
    Send(2, D, PLAIN),
    To(1, M4, 100),
    Flush(1, D, 0),
    To(2, M3, 10),
    Send(2, D, PLAIN),
    To(1, M5, 10)]

  /** One router acts, the others stay. */
  lemma Acts(a: Node, b: Node, o: Node, msgs: set<Msg>, s: Step, a': Node, b': Node, o': Node, msgs': set<Msg>)
    requires s.a in {1, 2, 3} && Enabled(Three(a, b, o, msgs), s)
    requires NodeAfter(Three(a, b, o, msgs), s) == if s.a == 1 then a' else if s.a == 2 then b' else o'
    requires MsgsAfter(Three(a, b, o, msgs), s) == msgs'
    requires (s.a == 1 || a' == a) && (s.a == 2 || b' == b) && (s.a == 3 || o' == o)
    ensures Apply(Three(a, b, o, msgs), s) == Three(a', b', o', msgs')
  {
    hide NodeAfter, MsgsAfter, Enabled;
  }

  lemma Step0()
    ensures var net := Three(A0, B0, Origin(0), {});
            Enabled(net, Send(3, D, PLAIN)) && Apply(net, Send(3, D, PLAIN)) == Three(A0, B0, Origin(0), {M0})
  {
    OriginSends(0);
    hide UpdateRoute, Advertise, RetractRoute, FlushRoute, Apply;
    Acts(A0, B0, Origin(0), {}, Send(3, D, PLAIN), A0, B0, Origin(0), {M0});
  }

  lemma Step1()
    ensures var net := Three(A0, B0, Origin(0), {M0});
            Enabled(net, To(2, M0, 10)) && Apply(net, To(2, M0, 10)) == Three(A0, B1, Origin(0), {M0})
  {
    FirstRoute(2, 0, 0, 3, 10);
    hide UpdateRoute, Advertise, RetractRoute, FlushRoute, Apply;
    Acts(A0, B0, Origin(0), {M0}, To(2, M0, 10), A0, B1, Origin(0), {M0});
  }

  lemma Step2()
    ensures var net := Three(A0, B1, Origin(0), {M0});
            Enabled(net, Send(2, D, PLAIN)) && Apply(net, Send(2, D, PLAIN)) == Three(A0, B2, Origin(0), {M0, M1})
  {
    RouterSends(2, [R(0, 0, 10, 3, true)], 0, INFINITY, 1, 0, 10);
    hide UpdateRoute, Advertise, RetractRoute, FlushRoute, Apply;
    Acts(A0, B1, Origin(0), {M0}, Send(2, D, PLAIN), A0, B2, Origin(0), {M0, M1});
  }

  lemma Step3()
    ensures var net := Three(A0, B2, Origin(0), {M0, M1});
            Enabled(net, To(1, M1, 100)) && Apply(net, To(1, M1, 100)) == Three(A1, B2, Origin(0), {M0, M1})
  {
    FirstRoute(1, 0, 10, 2, 100);
    hide UpdateRoute, Advertise, RetractRoute, FlushRoute, Apply;
    Acts(A0, B2, Origin(0), {M0, M1}, To(1, M1, 100), A1, B2, Origin(0), {M0, M1});
  }

  lemma Step4()
    ensures var net := Three(A1, B2, Origin(0), {M0, M1});
            Enabled(net, NewSeqno(3)) && Apply(net, NewSeqno(3)) == Three(A1, B2, Origin(1), {M0, M1})
  {
    hide UpdateRoute, Advertise, RetractRoute, FlushRoute, Apply;
    Acts(A1, B2, Origin(0), {M0, M1}, NewSeqno(3), A1, B2, Origin(1), {M0, M1});
  }

  lemma Step5()
    ensures var net := Three(A1, B2, Origin(1), {M0, M1});
            Enabled(net, Send(3, D, PLAIN)) && Apply(net, Send(3, D, PLAIN)) == Three(A1, B2, Origin(1), {M0, M1, M2})
  {
    OriginSends(1);
    hide UpdateRoute, Advertise, RetractRoute, FlushRoute, Apply;
    Acts(A1, B2, Origin(1), {M0, M1}, Send(3, D, PLAIN), A1, B2, Origin(1), {M0, M1, M2});
  }

  lemma Step6()
    ensures var net := Three(A1, B2, Origin(1), {M0, M1, M2});
            Enabled(net, To(1, M2, 10)) && Apply(net, To(1, M2, 10)) == Three(A2, B2, Origin(1), {M0, M1, M2})
  {
    SwitchToSource();
    hide UpdateRoute, Advertise, RetractRoute, FlushRoute, Apply;
    Acts(A1, B2, Origin(1), {M0, M1, M2}, To(1, M2, 10), A2, B2, Origin(1), {M0, M1, M2});
  }

  lemma Step7()
    ensures var net := Three(A2, B2, Origin(1), {M0, M1, M2});
            Enabled(net, Send(1, D, PLAIN)) && Apply(net, Send(1, D, PLAIN)) == Three(A3, B2, Origin(1), {M0, M1, M2, M3})
  {
    WireCompare(0, 1);
    RouterSends(1, [R(1, 0, 10, 3, true), R(0, 10, 100, 2, false)], 0, INFINITY, 2, 1, 10);
    hide UpdateRoute, Advertise, RetractRoute, FlushRoute, Apply;
    Acts(A2, B2, Origin(1), {M0, M1, M2}, Send(1, D, PLAIN), A3, B2, Origin(1), {M0, M1, M2, M3});
  }

  lemma Step8()
    ensures var net := Three(A3, B2, Origin(1), {M0, M1, M2, M3});
            Enabled(net, Retract(2, D, 0)) && Apply(net, Retract(2, D, 0)) == Three(A3, B3, Origin(1), {M0, M1, M2, M3})
  {
    SourceRetracted();
    hide UpdateRoute, Advertise, RetractRoute, FlushRoute, Apply;
    Acts(A3, B2, Origin(1), {M0, M1, M2, M3}, Retract(2, D, 0), A3, B3, Origin(1), {M0, M1, M2, M3});
  }

  lemma Step9()
    ensures var net := Three(A3, B3, Origin(1), {M0, M1, M2, M3});
            Enabled(net, Send(2, D, PLAIN)) && Apply(net, Send(2, D, PLAIN)) == Three(A3, B3, Origin(1), {M0, M1, M2, M3, M4})
  {
    RouterSends(2, [R(0, INFINITY, INFINITY, 3, true)], 0, 10, 1, 0, 10);
    hide UpdateRoute, Advertise, RetractRoute, FlushRoute, Apply;
    Acts(A3, B3, Origin(1), {M0, M1, M2, M3}, Send(2, D, PLAIN), A3, B3, Origin(1), {M0, M1, M2, M3, M4});
  }

  lemma Step10()
    ensures var net := Three(A3, B3, Origin(1), {M0, M1, M2, M3, M4});
            Enabled(net, To(1, M4, 100)) && Apply(net, To(1, M4, 100)) == Three(A4, B3, Origin(1), {M0, M1, M2, M3, M4})
  {
    SpareRetracted();
    hide UpdateRoute, Advertise, RetractRoute, FlushRoute, Apply;
    Acts(A3, B3, Origin(1), {M0, M1, M2, M3, M4}, To(1, M4, 100), A4, B3, Origin(1), {M0, M1, M2, M3, M4});
  }

  lemma Step11()
    ensures var net := Three(A4, B3, Origin(1), {M0, M1, M2, M3, M4});
            Enabled(net, Flush(1, D, 0)) && Apply(net, Flush(1, D, 0)) == Three(A5, B3, Origin(1), {M0, M1, M2, M3, M4})
  {
    InstallRetracted();
    hide UpdateRoute, Advertise, RetractRoute, FlushRoute, Apply;
    Acts(A4, B3, Origin(1), {M0, M1, M2, M3, M4}, Flush(1, D, 0), A5, B3, Origin(1), {M0, M1, M2, M3, M4});
  }

  lemma Step12()
    ensures var net := Three(A5, B3, Origin(1), {M0, M1, M2, M3, M4});
            Enabled(net, To(2, M3, 10)) && Apply(net, To(2, M3, 10)) == Three(A5, B4, Origin(1), {M0, M1, M2, M3, M4})
  {
    SwitchToLoop();
    hide UpdateRoute, Advertise, RetractRoute, FlushRoute, Apply;
    Acts(A5, B3, Origin(1), {M0, M1, M2, M3, M4}, To(2, M3, 10), A5, B4, Origin(1), {M0, M1, M2, M3, M4});
  }

  lemma Step13()
    ensures var net := Three(A5, B4, Origin(1), {M0, M1, M2, M3, M4});
            Enabled(net, Send(2, D, PLAIN)) && Apply(net, Send(2, D, PLAIN)) == Three(A5, B5, Origin(1), {M0, M1, M2, M3, M4, M5})
  {
    WireCompare(0, 1);
    RouterSends(2, [R(1, 10, 10, 1, true), R(0, INFINITY, INFINITY, 3, false)], 0, 10, 2, 1, 20);
    hide UpdateRoute, Advertise, RetractRoute, FlushRoute, Apply;
    Acts(A5, B4, Origin(1), {M0, M1, M2, M3, M4}, Send(2, D, PLAIN), A5, B5, Origin(1), {M0, M1, M2, M3, M4, M5});
  }

  lemma Step14()
    ensures var net := Three(A5, B5, Origin(1), {M0, M1, M2, M3, M4, M5});
            Enabled(net, To(1, M5, 10)) && Apply(net, To(1, M5, 10)) == Three(A6, B5, Origin(1), {M0, M1, M2, M3, M4, M5})
  {
    UnfeasibleRecorded();
    hide UpdateRoute, Advertise, RetractRoute, FlushRoute, Apply;
    Acts(A5, B5, Origin(1), {M0, M1, M2, M3, M4, M5}, To(1, M5, 10), A6, B5, Origin(1), {M0, M1, M2, M3, M4, M5});
  }

  lemma StartsEmpty()
    ensures Initial(NETS[0])
  {
  }

  lemma IsTheRun()
    ensures IsRun(NETS, STEPS)
  {
    hide Enabled, Apply, Three, N, Origin, Empty, Initial, To;
    StartsEmpty();
    Step0();
    Step1();
    Step2();
    Step3();
    Step4();
    Step5();
    Step6();
    Step7();
    Step8();
    Step9();
    Step10();
    Step11();
    Step12();
    Step13();
    Step14();
  }

  lemma EmptyInScope(n: Node)
    requires n.srcs == map[] && n.chains == map[]
    ensures NodeInScope(n)
  {
    assert forall d :: ChainOf(n, d) == [];
  }

  lemma RouterInScope(id: nat, c: Chain, seqno: int, metric: nat, count: int)
    requires seqno in {0, 1}
    requires forall i :: 0 <= i < |c| ==> c[i].cost >= 1 && c[i].seqno in {0, 1} && c[i].src == KEY
    ensures NodeInScope(N(id, c, seqno, metric, count))
  {
    var n := N(id, c, seqno, metric, count);
    forall d, i | 0 <= i < |ChainOf(n, d)|
      ensures ChainOf(n, d)[i].cost >= 1 && InWindow(ChainOf(n, d)[i].seqno, n.srcs[KEY].seqno)
    {
      assert ChainOf(n, d) == c;
    }
  }

  lemma FirstInScope()
    ensures NodeInScope(A0) && NodeInScope(A1) && NodeInScope(A2) && NodeInScope(A3)
    ensures NodeInScope(A4) && NodeInScope(A5) && NodeInScope(A6)
  {
    EmptyInScope(A0);
    hide NodeInScope, N;
    RouterInScope(1, [R(0, 10, 100, 2, true)], 0, INFINITY, 1);
    RouterInScope(1, [R(1, 0, 10, 3, true), R(0, 10, 100, 2, false)], 0, INFINITY, 2);
    RouterInScope(1, [R(1, 0, 10, 3, true), R(0, 10, 100, 2, false)], 1, 10, 2);
    RouterInScope(1, [R(1, 0, 10, 3, true), R(0, INFINITY, 100, 2, false)], 1, 10, 2);
    RouterInScope(1, [R(0, INFINITY, 100, 2, true)], 1, 10, 1);
    RouterInScope(1, [R(1, 20, 10, 2, true)], 1, 10, 1);
  }

  lemma SecondInScope()
    ensures NodeInScope(B0) && NodeInScope(B1) && NodeInScope(B2) && NodeInScope(B3)
    ensures NodeInScope(B4) && NodeInScope(B5)
  {
    EmptyInScope(B0);
    hide NodeInScope, N;
    RouterInScope(2, [R(0, 0, 10, 3, true)], 0, INFINITY, 1);
    RouterInScope(2, [R(0, 0, 10, 3, true)], 0, 10, 1);
    RouterInScope(2, [R(0, INFINITY, INFINITY, 3, true)], 0, 10, 1);
    RouterInScope(2, [R(1, 10, 10, 1, true), R(0, INFINITY, INFINITY, 3, false)], 0, 10, 2);
    RouterInScope(2, [R(1, 10, 10, 1, true), R(0, INFINITY, INFINITY, 3, false)], 1, 20, 2);
  }

  lemma SourceInScope()
    ensures NodeInScope(Origin(0)) && NodeInScope(Origin(1))
  {
    EmptyInScope(Origin(0));
    EmptyInScope(Origin(1));
  }

  lemma ThreeInScope(a: Node, b: Node, o: Node, msgs: set<Msg>)
    requires NodeInScope(a) && NodeInScope(b) && NodeInScope(o)
    ensures InScope(Three(a, b, o, msgs))
  {
    hide NodeInScope;
  }

  lemma AllInScope()
    ensures forall i :: 0 <= i < |NETS| ==> InScope(NETS[i])
  {
    hide NodeInScope, InScope, N, Empty, Origin;
    FirstInScope();
    SecondInScope();
    SourceInScope();
    ThreeInScope(A0, B0, Origin(0), {});
    ThreeInScope(A0, B0, Origin(0), {M0});
    ThreeInScope(A0, B1, Origin(0), {M0});
    ThreeInScope(A0, B2, Origin(0), {M0, M1});
    ThreeInScope(A1, B2, Origin(0), {M0, M1});
    ThreeInScope(A1, B2, Origin(1), {M0, M1});
    ThreeInScope(A1, B2, Origin(1), {M0, M1, M2});
    ThreeInScope(A2, B2, Origin(1), {M0, M1, M2});
    ThreeInScope(A3, B2, Origin(1), {M0, M1, M2, M3});
    ThreeInScope(A3, B3, Origin(1), {M0, M1, M2, M3});
    ThreeInScope(A3, B3, Origin(1), {M0, M1, M2, M3, M4});
    ThreeInScope(A4, B3, Origin(1), {M0, M1, M2, M3, M4});
    ThreeInScope(A5, B3, Origin(1), {M0, M1, M2, M3, M4});
    ThreeInScope(A5, B4, Origin(1), {M0, M1, M2, M3, M4});
    ThreeInScope(A5, B5, Origin(1), {M0, M1, M2, M3, M4, M5});
    ThreeInScope(A6, B5, Origin(1), {M0, M1, M2, M3, M4, M5});
  }

  predicate ForwardsFinite(net: Net, a: nat, b: nat) {
    Forwards(net, KEY, a, b) && RouteMetric(ChainOf(net.nodes[a], D)[0]) < INFINITY
  }

  lemma EndsInLoop()
    ensures ForwardsFinite(NETS[15], 1, 2) && ForwardsFinite(NETS[15], 2, 1) && ForwardingPath(NETS[15], KEY, [1, 2, 1])
  {
    assert NETS[15].nodes[1] == A6 && NETS[15].nodes[2] == B5;
  }

  /** There is a run that meets every condition but anchoring and ends in a loop of two routers
      whose routes both have finite metrics. */
  lemma LoopWithoutAnchoring() returns (nets: seq<Net>, steps: seq<Step>, a: nat, b: nat)
    ensures IsRun(nets, steps) && (forall i :: 0 <= i < |nets| ==> InScope(nets[i]))
    ensures ForwardingPath(nets[|nets| - 1], KEY, [a, b, a])
    ensures ForwardsFinite(nets[|nets| - 1], a, b) && ForwardsFinite(nets[|nets| - 1], b, a)
  {
    hide IsRun, InScope, Three, Forwards, ForwardsFinite, ForwardingPath;
    nets, steps, a, b := NETS, STEPS, 1, 2;
    IsTheRun();
    AllInScope();
    EndsInLoop();
  }
}
