/** The theorem about runs: installed next hops towards a source never form a cycle. */
module LoopFreedom {
  import opened BabelNode
  import opened BabelInvariants
  import opened BabelNetwork

  /** Routers before anything was received; what they export is free. */
  predicate Initial(net: Net) {
    && net.msgs == {}
    && forall a :: a in net.nodes ==>
         net.nodes[a].myid == a && net.nodes[a].chains == map[] && net.nodes[a].srcs == map[]
  }

  lemma InitialInv(net: Net)
    requires Initial(net)
    ensures NetInv(net)
  {
    forall a | a in net.nodes ensures NodeOk(net, a) {
      assert forall d :: ChainOf(net.nodes[a], d) == [];
    }
  }

  ghost predicate IsRun(nets: seq<Net>, steps: seq<Step>) {
    && |nets| == |steps| + 1 && Initial(nets[0])
    && forall i :: 0 <= i < |steps| ==> Enabled(nets[i], steps[i]) && nets[i + 1] == Apply(nets[i], steps[i])
  }

  /** The runs considered: see `InScope` and `Anchored`. */
  ghost predicate Considerable(nets: seq<Net>, steps: seq<Step>) {
    && IsRun(nets, steps)
    && (forall i :: 0 <= i < |nets| ==> InScope(nets[i]))
    && (forall i :: 0 <= i < |steps| ==> Anchored(nets[i], steps[i]))
  }

  lemma {:induction false} RunInv(nets: seq<Net>, steps: seq<Step>, k: nat)
    requires Considerable(nets, steps) && k < |nets|
    ensures NetInv(nets[k])
  {
    if k == 0 {
      InitialInv(nets[0]);
    } else {
      RunInv(nets, steps, k - 1);
      assert InScope(nets[k - 1]) && InScope(nets[k]) && Anchored(nets[k - 1], steps[k - 1]);
      assert nets[k] == Apply(nets[k - 1], steps[k - 1]);
      StepKeeps(nets[k - 1], steps[k - 1]);
    }
  }

  // ----- cycles ---------------------------------------------------------------------

  /** Router `a` forwards traffic for a source to router `b`. */
  predicate Forwards(net: Net, key: SourceKey, a: nat, b: nat) {
    && a in net.nodes && HasInstalled(net.nodes[a], key.dest)
    && ChainOf(net.nodes[a], key.dest)[0].src == key
    && ChainOf(net.nodes[a], key.dest)[0].neigh.router == b
  }

  predicate ForwardingPath(net: Net, key: SourceKey, p: seq<nat>) {
    |p| >= 2 && forall i :: 0 <= i < |p| - 1 ==> Forwards(net, key, p[i], p[i + 1])
  }

  /** A router never has an installed route to itself as source. */
  lemma SourceForwardsNot(net: Net, key: SourceKey, a: nat, b: nat)
    requires NetInv(net) && Forwards(net, key, a, b)
    ensures a != key.id
  {
    var n := net.nodes[a];
    assert NodeOk(net, a);
    assert ChainOk(n, key.dest, n.chains[key.dest]);
    assert RouteOk(n, key.dest, n.chains[key.dest][0]);
  }

  lemma HopCloser(net: Net, key: SourceKey, a: nat, b: nat)
    requires NetInv(net) && Forwards(net, key, a, b) && b != key.id
    ensures Closer(net, b, a, key)
  {
    assert NodeOk(net, a);
    assert HopOk(net, a, ChainOf(net.nodes[a], key.dest)[0]);
  }

  /** Along a forwarding path the distance strictly improves, up to the source itself. */
  lemma {:induction false} PathCloser(net: Net, key: SourceKey, p: seq<nat>)
    requires NetInv(net) && ForwardingPath(net, key, p) && p[|p| - 1] != key.id
    ensures Closer(net, p[|p| - 1], p[0], key)
  {
    hide NetInv, Forwards;
    assert Forwards(net, key, p[0], p[1]);
    if |p| == 2 {
      HopCloser(net, key, p[0], p[1]);
    } else {
      var q := p[1..];
      forall i | 0 <= i < |q| - 1 ensures Forwards(net, key, q[i], q[i + 1]) {
        assert Forwards(net, key, p[i + 1], p[i + 1 + 1]);
      }
      assert Forwards(net, key, p[1], p[2]);
      SourceForwardsNot(net, key, p[1], p[2]);
      HopCloser(net, key, p[0], p[1]);
      PathCloser(net, key, q);
    }
  }

  lemma NoCycle(net: Net, key: SourceKey, p: seq<nat>)
    requires NetInv(net) && ForwardingPath(net, key, p)
    ensures p[0] != p[|p| - 1]
  {
    SourceForwardsNot(net, key, p[0], p[1]);
    if p[|p| - 1] != key.id {
      PathCloser(net, key, p);
    }
  }

  /** Main result: in every run considered, at every moment, following installed routes towards
      any source never leads back to where it started. */
  lemma LoopFree(nets: seq<Net>, steps: seq<Step>, k: nat, key: SourceKey, p: seq<nat>)
    requires Considerable(nets, steps) && k < |nets|
    requires ForwardingPath(nets[k], key, p)
    ensures p[0] != p[|p| - 1]
  {
    RunInv(nets, steps, k);
    NoCycle(nets[k], key, p);
  }

  /** The reason: each next hop is the source or strictly closer to it. */
  lemma NextHopCloser(nets: seq<Net>, steps: seq<Step>, k: nat, key: SourceKey, a: nat, b: nat)
    requires Considerable(nets, steps) && k < |nets| && Forwards(nets[k], key, a, b)
    ensures b == key.id || Closer(nets[k], b, a, key)
  {
    RunInv(nets, steps, k);
    if b != key.id {
      HopCloser(nets[k], key, a, b);
    }
  }
}
