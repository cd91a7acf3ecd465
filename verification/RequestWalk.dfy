/** Requests for a new sequence number, and their walk through a network (handle_request and
    update_myseqno in babeld/message.c). */
module RequestWalk {
  import opened Wrappers
  import opened BabelMetric
  import opened Seqno
  import opened BabelNode

  /** A request for destination `dest` with at least sequence number `seqno` of router `id`. */
  datatype Request = Request(dest: Dest, hopCount: nat, seqno: int, id: nat)

  datatype Action = Silent | SendUpdate | Forward(to: Neighbour, hopCount: nat)

  function InstalledRoute(n: Node, d: Dest): Option<Route> {
    if HasInstalled(n, d) then Some(ChainOf(n, d)[0]) else None
  }

  predicate Usable(r: Option<Route>) {
    r.Some? && RouteMetric(r.value) < INFINITY
  }

  /** The neighbour a request is passed on to: the next hop, or another one if the request came
      from there. */
  function Successor(n: Node, d: Dest, from: Neighbour): Option<Neighbour> {
    var route := InstalledRoute(n, d);
    if Usable(route) && route.value.neigh != from then Some(route.value.neigh)
    else
      var c := ChainOf(n, d);
      var other := if c == [] then None else Some(c[BestIndex(n, c, false, Some(from))]);
      if Usable(other) && other.value.neigh != from then Some(other.value.neigh) else None
  }

  predicate OwnRoute(n: Node, d: Dest) {
    d in n.xroutes && (!HasInstalled(n, d) || n.xroutes[d] <= n.config.kernelMetric)
  }

  /** handle_request; `redundant` is the verdict of the table of recent requests. */
  function HandleRequest(n: Node, from: Neighbour, q: Request, redundant: bool): (Node, Action)
    requires Is16(q.seqno)
  {
    var route := InstalledRoute(n, q.dest);
    if OwnRoute(n, q.dest) then
      if q.hopCount > 0 && q.id == n.myid && SeqnoCompare(q.seqno, Wire(n.myseqno)) > 0 then
        if SeqnoMinus(q.seqno, Wire(n.myseqno)) > 100 then (n, Silent)
        else (n.(myseqno := n.myseqno + 1), SendUpdate)
      else (n, SendUpdate)
    else if route.Some? && (q.id != route.value.src.id || SeqnoCompare(q.seqno, Wire(route.value.seqno)) <= 0) then
      (n, SendUpdate)
    else if q.hopCount <= 1 then (n, Silent)
    else if route.Some? && q.id == route.value.src.id && SeqnoMinus(q.seqno, Wire(route.value.seqno)) > 100 then
      (n, Silent)
    else if redundant then (n, Silent)
    else
      var to := Successor(n, q.dest, from);
      (n, if to.Some? then Forward(to.value, q.hopCount - 1) else Silent)
  }

  /** What one request can do: it is passed on once at most, never back, with fewer hops to go, or
      it raises the router's own sequence number by one, for a router that is asked for it. */
  lemma HandlingFacts(n: Node, from: Neighbour, q: Request, redundant: bool)
    requires Is16(q.seqno)
    ensures var (n', a) := HandleRequest(n, from, q, redundant);
            && (a.Forward? ==>
                  && n' == n && a.to != from && a.hopCount == q.hopCount - 1 && a.hopCount >= 1
                  && (exists i :: 0 <= i < |ChainOf(n, q.dest)| && ChainOf(n, q.dest)[i].neigh == a.to
                                  && RouteMetric(ChainOf(n, q.dest)[i]) < INFINITY))
            && n' == n.(myseqno := n'.myseqno)
            && (n'.myseqno == n.myseqno || (n'.myseqno == n.myseqno + 1 && q.id == n.myid && a.SendUpdate?))
  {
    hide BestIndex, RouteMetric, SeqnoCompare, SeqnoMinus;
    var c := ChainOf(n, q.dest);
    assert c != [] ==> BestIndex(n, c, false, Some(from)) < |c|;
  }

  /** Exactly which requests raise the sequence number: those that are at most 100 ahead of it, and
      those exactly half the number space away, which the two comparisons judge differently.  Each
      brings the number one step nearer to what was asked for. */
  lemma RaisedExactly(n: Node, from: Neighbour, q: Request, redundant: bool)
    requires Is16(q.seqno)
    ensures var n' := HandleRequest(n, from, q, redundant).0;
            var diff := (q.seqno - n.myseqno) % MODULUS;
            && (n'.myseqno != n.myseqno <==>
                  OwnRoute(n, q.dest) && q.hopCount > 0 && q.id == n.myid && (0 < diff <= 100 || diff == HALF))
            && (n'.myseqno != n.myseqno ==> (q.seqno - n'.myseqno) % MODULUS == diff - 1)
  {
    var diff := (q.seqno - n.myseqno) % MODULUS;
    WireDifference(q.seqno, n.myseqno);
    if 0 < diff {
      assert (q.seqno - (n.myseqno + 1)) % MODULUS == diff - 1 by { MinusOne(q.seqno - n.myseqno); }
    }
    hide InstalledRoute, OwnRoute, Successor;
  }

  lemma MinusOne(x: int)
    requires x % MODULUS > 0
    ensures (x - 1) % MODULUS == x % MODULUS - 1
  {
  }

  /** The comparisons on wire numbers, in terms of the distance to go. */
  lemma WireDifference(s: int, counter: int)
    requires Is16(s)
    ensures var diff := (s - counter) % MODULUS;
            && (s - Wire(counter)) % MODULUS == diff
            && (SeqnoCompare(s, Wire(counter)) > 0 <==> 0 < diff <= HALF)
            && SeqnoMinus(s, Wire(counter)) == if diff >= HALF then diff - MODULUS else diff
  {
    var q := counter / MODULUS;
    assert counter == q * MODULUS + Wire(counter);
    assert s - counter == (s - Wire(counter)) - q * MODULUS;
  }

  // ----- the walk -------------------------------------------------------------------

  /** A copy of a request on its way to a router, which sees it come from a neighbour. */
  datatype Copy = Copy(router: nat, from: Neighbour, request: Request)

  datatype World = World(nodes: map<nat, Node>, flying: seq<Copy>)

  /** A router handles a copy; a copy is lost; or a router changes in any other way, its own
      sequence number apart.  `link` is how the next router sees the one that passes a copy on. */
  datatype Step =
    | Handle(i: nat, redundant: bool, link: Neighbour)
    | Lose(i: nat)
    | Change(router: nat, node: Node)

  predicate Enabled(w: World, s: Step) {
    match s
    case Handle(i, _, _) =>
      i < |w.flying| && Is16(w.flying[i].request.seqno) && w.flying[i].router in w.nodes
    case Lose(i) => i < |w.flying|
    case Change(r, n) => r in w.nodes && n.myseqno == w.nodes[r].myseqno
  }

  function Without<T>(s: seq<T>, i: nat): seq<T>
    requires i < |s|
  {
    s[..i] + s[i + 1..]
  }

  function Outcome(w: World, s: Step): (Node, Action)
    requires s.Handle? && Enabled(w, s)
  {
    var c := w.flying[s.i];
    HandleRequest(w.nodes[c.router], c.from, c.request, s.redundant)
  }

  function Apply(w: World, s: Step): World
    requires Enabled(w, s)
  {
    match s
    case Handle(i, _, link) =>
      var c := w.flying[i];
      var (n, a) := Outcome(w, s);
      World(w.nodes[c.router := n],
            Without(w.flying, i) +
              if a.Forward? then [Copy(a.to.router, link, c.request.(hopCount := a.hopCount))] else [])
    case Lose(i) => w.(flying := Without(w.flying, i))
    case Change(r, n) => w.(nodes := w.nodes[r := n])
  }

  predicate Forwards(w: World, s: Step) {
    s.Handle? && Enabled(w, s) && Outcome(w, s).1.Forward?
  }

  predicate Raises(w: World, s: Step) {
    && s.Handle? && Enabled(w, s)
    && Outcome(w, s).0.myseqno != w.nodes[w.flying[s.i].router].myseqno
  }

  /** The forwards still to be expected of the copies in flight. */
  function HopsLeft(cs: seq<Copy>): nat {
    if cs == [] then 0
    else (if cs[0].request.hopCount > 1 then cs[0].request.hopCount - 1 else 0) + HopsLeft(cs[1..])
  }

  lemma {:induction false} HopsConcat(a: seq<Copy>, b: seq<Copy>)
    ensures HopsLeft(a + b) == HopsLeft(a) + HopsLeft(b)
  {
    if a == [] {
      assert a + b == b;
    } else {
      HopsConcat(a[1..], b);
      assert (a + b)[1..] == a[1..] + b;
    }
  }

  lemma HopsWithout(cs: seq<Copy>, i: nat)
    requires i < |cs|
    ensures HopsLeft(Without(cs, i)) == HopsLeft(cs) - HopsLeft([cs[i]])
  {
    hide HopsLeft;
    assert cs == cs[..i] + ([cs[i]] + cs[i + 1..]);
    HopsConcat(cs[..i], [cs[i]] + cs[i + 1..]);
    HopsConcat([cs[i]], cs[i + 1..]);
    HopsConcat(cs[..i], cs[i + 1..]);
  }

  /** Every forward uses up a hop, and every raise uses up a copy. */
  lemma StepPays(w: World, s: Step)
    requires Enabled(w, s)
    ensures var w' := Apply(w, s);
            && HopsLeft(w'.flying) + (if Forwards(w, s) then 1 else 0) <= HopsLeft(w.flying)
            && |w'.flying| + (if Raises(w, s) then 1 else 0) <= |w.flying|
  {
    if !s.Change? {
      HopsWithout(w.flying, s.i);
      if s.Handle? {
        var c := w.flying[s.i];
        var a := Outcome(w, s).1;
        HandlingFacts(w.nodes[c.router], c.from, c.request, s.redundant);
        hide HandleRequest;
        var more := if a.Forward? then [Copy(a.to.router, s.link, c.request.(hopCount := a.hopCount))] else [];
        HopsConcat(Without(w.flying, s.i), more);
        assert [c][1..] == [] && (a.Forward? ==> more[1..] == []);
      }
    }
  }

  // ----- runs -----------------------------------------------------------------------

  ghost predicate IsRun(w: World, steps: seq<Step>)
    decreases steps
  {
    steps == [] || (Enabled(w, steps[0]) && IsRun(Apply(w, steps[0]), steps[1..]))
  }

  ghost function CountForwards(w: World, steps: seq<Step>): nat
    requires IsRun(w, steps)
    decreases steps
  {
    if steps == [] then 0
    else (if Forwards(w, steps[0]) then 1 else 0) + CountForwards(Apply(w, steps[0]), steps[1..])
  }

  ghost function CountRaises(w: World, steps: seq<Step>): nat
    requires IsRun(w, steps)
    decreases steps
  {
    if steps == [] then 0
    else (if Raises(w, steps[0]) then 1 else 0) + CountRaises(Apply(w, steps[0]), steps[1..])
  }

  lemma {:induction false} RunPays(w: World, steps: seq<Step>)
    requires IsRun(w, steps)
    ensures CountForwards(w, steps) <= HopsLeft(w.flying)
    ensures CountRaises(w, steps) <= |w.flying|
    decreases steps
  {
    if steps != [] {
      StepPays(w, steps[0]);
      hide Apply, Forwards, Raises, HopsLeft, Enabled;
      RunPays(Apply(w, steps[0]), steps[1..]);
    }
  }

  /** One request with hop count `h`, in any network and whatever else happens in it, causes at
      most h - 1 forwards, and moves at most one sequence number by one. */
  lemma WalkBound(w: World, steps: seq<Step>)
    requires IsRun(w, steps) && |w.flying| == 1
    ensures CountForwards(w, steps) <= if w.flying[0].request.hopCount > 1 then w.flying[0].request.hopCount - 1 else 0
    ensures CountRaises(w, steps) <= 1
  {
    RunPays(w, steps);
    assert w.flying[1..] == [];
  }
}
