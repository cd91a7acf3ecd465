/** How the route table of babeld is stored, and which maps the stored form stands for: a sorted
    array of slots, one chain of routes per destination, and lists of sources and exported routes
    (babeld/route.c, babeld/source.c, babeld/xroute.c). */
module RouteSlots {
  import opened Wrappers
  import opened BabelNode
  import opened BabelInvariants

  /** The order of route_compare: by prefix bytes, then by length. */
  predicate Less(a: Dest, b: Dest) {
    a.prefix < b.prefix || (a.prefix == b.prefix && a.plen < b.plen)
  }

  function RouteCompare(d: Dest, c: Chain): int
    requires c != []
  {
    var e := c[0].src.dest;
    if d.prefix != e.prefix then d.prefix - e.prefix
    else if d.plen < e.plen then -1
    else if d.plen > e.plen then 1
    else 0
  }

  function DestOf(c: Chain): Dest
    requires c != []
  {
    c[0].src.dest
  }

  /** A chain holds routes to one destination. */
  predicate Uniform(c: Chain, d: Dest) {
    c != [] && forall j :: 0 <= j < |c| ==> c[j].src.dest == d
  }

  predicate SlotsSorted(slots: seq<Chain>) {
    && (forall i :: 0 <= i < |slots| ==> slots[i] != [] && Uniform(slots[i], DestOf(slots[i])))
    && (forall i, j :: 0 <= i < j < |slots| ==> Less(DestOf(slots[i]), DestOf(slots[j])))
  }

  predicate HasSlot(slots: seq<Chain>, d: Dest)
    requires forall i :: 0 <= i < |slots| ==> slots[i] != []
  {
    exists i :: 0 <= i < |slots| && DestOf(slots[i]) == d
  }

  ghost predicate SlotsShow(slots: seq<Chain>, chains: map<Dest, Chain>)
    requires SlotsSorted(slots)
  {
    && (forall i :: 0 <= i < |slots| ==> DestOf(slots[i]) in chains && chains[DestOf(slots[i])] == slots[i])
    && (forall d :: d in chains ==> HasSlot(slots, d))
  }

  ghost predicate Listed<K(!new), V(!new)>(l: seq<(K, V)>, k: K) {
    exists i :: 0 <= i < |l| && l[i].0 == k
  }

  /** A list of pairs with distinct keys that lists a map. */
  ghost predicate Lists<K(!new), V(!new)>(l: seq<(K, V)>, m: map<K, V>) {
    && (forall i, j :: 0 <= i < j < |l| ==> l[i].0 != l[j].0)
    && (forall i :: 0 <= i < |l| ==> l[i].0 in m && m[l[i].0] == l[i].1)
    && (forall k :: k in m ==> Listed(l, k))
  }

  // ----- editing the slot array -----------------------------------------------------

  lemma ReplaceSlot(slots: seq<Chain>, chains: map<Dest, Chain>, k: nat, c: Chain)
    requires SlotsSorted(slots) && SlotsShow(slots, chains) && k < |slots| && Uniform(c, DestOf(slots[k]))
    ensures SlotsSorted(slots[k := c]) && SlotsShow(slots[k := c], chains[DestOf(slots[k]) := c])
  {
    var s, d := slots[k := c], DestOf(slots[k]);
    assert DestOf(c) == d;
    hide Uniform, Less, DestOf;
    assert forall i :: 0 <= i < |s| ==> s[i] != [] && DestOf(s[i]) == DestOf(slots[i]);
    assert SlotsSorted(s);
    forall x | x in chains[d := c] ensures HasSlot(s, x) {
      assert HasSlot(slots, x);
      var i :| 0 <= i < |slots| && DestOf(slots[i]) == x;
      assert DestOf(s[i]) == x;
    }
  }

  /** The place where a destination without slot belongs. */
  predicate InsertionPoint(slots: seq<Chain>, d: Dest, k: nat)
    requires forall i :: 0 <= i < |slots| ==> slots[i] != []
  {
    && k <= |slots|
    && (forall i :: 0 <= i < k ==> Less(DestOf(slots[i]), d))
    && (forall i :: k <= i < |slots| ==> Less(d, DestOf(slots[i])))
  }

  function Inserted(slots: seq<Chain>, k: nat, c: Chain): seq<Chain>
    requires k <= |slots|
  {
    slots[..k] + [c] + slots[k..]
  }

  lemma InsertedAt(slots: seq<Chain>, k: nat, c: Chain, i: nat)
    requires k <= |slots|
    ensures |Inserted(slots, k, c)| == |slots| + 1 && Inserted(slots, k, c)[k] == c
    ensures i < |slots| ==> Inserted(slots, k, c)[if i < k then i else i + 1] == slots[i]
  {
  }

  lemma InsertSorted(slots: seq<Chain>, k: nat, d: Dest, c: Chain)
    requires SlotsSorted(slots) && InsertionPoint(slots, d, k) && Uniform(c, d)
    ensures SlotsSorted(Inserted(slots, k, c))
  {
    var s := Inserted(slots, k, c);
    assert DestOf(c) == d;
    InsertedAt(slots, k, c, 0);
    hide Inserted, Uniform, Less, DestOf;
    forall i | 0 <= i < |s| ensures s[i] != [] && Uniform(s[i], DestOf(s[i])) {
      InsertedAt(slots, k, c, if i < k then i else if i == k then 0 else i - 1);
    }
    forall i, j | 0 <= i < j < |s| ensures Less(DestOf(s[i]), DestOf(s[j])) {
      InsertedAt(slots, k, c, if i < k then i else if i == k then 0 else i - 1);
      InsertedAt(slots, k, c, if j < k then j else if j == k then 0 else j - 1);
    }
  }

  lemma InsertShown(slots: seq<Chain>, chains: map<Dest, Chain>, k: nat, d: Dest, c: Chain)
    requires SlotsSorted(slots) && SlotsShow(slots, chains) && InsertionPoint(slots, d, k) && Uniform(c, d)
    ensures SlotsSorted(Inserted(slots, k, c)) && SlotsShow(Inserted(slots, k, c), chains[d := c])
  {
    InsertSorted(slots, k, d, c);
    var s, chains' := Inserted(slots, k, c), chains[d := c];
    assert DestOf(c) == d;
    assert forall i :: 0 <= i < |slots| ==> DestOf(slots[i]) != d;
    InsertedAt(slots, k, c, 0);
    hide Inserted, Uniform, Less, DestOf, InsertionPoint;
    forall i | 0 <= i < |s| ensures DestOf(s[i]) in chains' && chains'[DestOf(s[i])] == s[i] {
      InsertedAt(slots, k, c, if i < k then i else if i == k then 0 else i - 1);
    }
    forall x | x in chains' ensures HasSlot(s, x) {
      if x == d {
        assert DestOf(s[k]) == x;
      } else {
        assert HasSlot(slots, x);
        var i :| 0 <= i < |slots| && DestOf(slots[i]) == x;
        InsertedAt(slots, k, c, i);
      }
    }
  }

  function Removed(slots: seq<Chain>, k: nat): seq<Chain>
    requires k < |slots|
  {
    slots[..k] + slots[k + 1..]
  }

  lemma RemovedAt(slots: seq<Chain>, k: nat, i: nat)
    requires k < |slots|
    ensures |Removed(slots, k)| == |slots| - 1
    ensures i < |slots| - 1 ==> Removed(slots, k)[i] == slots[if i < k then i else i + 1]
  {
  }

  lemma RemoveSorted(slots: seq<Chain>, k: nat)
    requires SlotsSorted(slots) && k < |slots|
    ensures SlotsSorted(Removed(slots, k))
  {
    var s := Removed(slots, k);
    RemovedAt(slots, k, 0);
    hide Removed, Uniform, Less, DestOf;
    forall i | 0 <= i < |s| ensures s[i] != [] && Uniform(s[i], DestOf(s[i])) {
      RemovedAt(slots, k, i);
    }
    forall i, j | 0 <= i < j < |s| ensures Less(DestOf(s[i]), DestOf(s[j])) {
      RemovedAt(slots, k, i);
      RemovedAt(slots, k, j);
    }
  }

  lemma DistinctDests(slots: seq<Chain>, i: nat, j: nat)
    requires SlotsSorted(slots) && i < |slots| && j < |slots| && i != j
    ensures DestOf(slots[i]) != DestOf(slots[j])
  {
    assert Less(DestOf(slots[if i < j then i else j]), DestOf(slots[if i < j then j else i]));
  }

  lemma RemoveShown(slots: seq<Chain>, chains: map<Dest, Chain>, k: nat)
    requires SlotsSorted(slots) && SlotsShow(slots, chains) && k < |slots|
    ensures SlotsSorted(Removed(slots, k))
    ensures SlotsShow(Removed(slots, k), chains - {DestOf(slots[k])})
  {
    RemoveSorted(slots, k);
    var s, d := Removed(slots, k), DestOf(slots[k]);
    var chains' := chains - {d};
    RemovedAt(slots, k, 0);
    hide Removed, Uniform, Less, DestOf;
    forall i | 0 <= i < |s| ensures DestOf(s[i]) in chains' && chains'[DestOf(s[i])] == s[i] {
      RemovedAt(slots, k, i);
      DistinctDests(slots, if i < k then i else i + 1, k);
    }
    forall x | x in chains' ensures HasSlot(s, x) {
      assert HasSlot(slots, x);
      var i :| 0 <= i < |slots| && DestOf(slots[i]) == x;
      RemovedAt(slots, k, if i < k then i else i - 1);
    }
  }

  lemma ReselectedUniform(n: Node, d: Dest, c: Chain, c': Chain)
    requires Reselected(n, d, c, c') && Uniform(c, d)
    ensures Uniform(c', d)
  {
    forall i | 0 <= i < |c'| ensures c'[i].src.dest == d {
      var k := RoutesMember(c, c', i);
    }
  }

  // ----- editing the lists ----------------------------------------------------------

  lemma ListsSet<K(!new), V(!new)>(l: seq<(K, V)>, m: map<K, V>, k: nat, v: V)
    requires Lists(l, m) && k < |l|
    ensures Lists(l[k := (l[k].0, v)], m[l[k].0 := v])
  {
    var l', m' := l[k := (l[k].0, v)], m[l[k].0 := v];
    forall x | x in m' ensures Listed(l', x) {
      assert Listed(l, x);
      var i :| 0 <= i < |l| && l[i].0 == x;
      assert l'[i].0 == x;
    }
  }

  lemma ListsCons<K(!new), V(!new)>(l: seq<(K, V)>, m: map<K, V>, key: K, v: V)
    requires Lists(l, m) && key !in m
    ensures Lists([(key, v)] + l, m[key := v])
  {
    var l', m' := [(key, v)] + l, m[key := v];
    forall x | x in m' ensures Listed(l', x) {
      if x == key {
        assert l'[0].0 == x;
      } else {
        assert Listed(l, x);
        var i :| 0 <= i < |l| && l[i].0 == x;
        assert l'[i + 1].0 == x;
      }
    }
  }

  lemma ListsSnoc<K(!new), V(!new)>(l: seq<(K, V)>, m: map<K, V>, key: K, v: V)
    requires Lists(l, m) && key !in m
    ensures Lists(l + [(key, v)], m[key := v])
  {
    var l', m' := l + [(key, v)], m[key := v];
    forall x | x in m' ensures Listed(l', x) {
      if x == key {
        assert l'[|l|].0 == x;
      } else {
        assert Listed(l, x);
        var i :| 0 <= i < |l| && l[i].0 == x;
        assert l'[i].0 == x;
      }
    }
  }

  /** The last entry takes the place of the removed one. */
  function SwappedOut<T>(l: seq<T>, k: nat): seq<T>
    requires k < |l|
  {
    l[k := l[|l| - 1]][..|l| - 1]
  }

  lemma ListsSwapOut<K(!new), V(!new)>(l: seq<(K, V)>, m: map<K, V>, k: nat)
    requires Lists(l, m) && k < |l|
    ensures Lists(SwappedOut(l, k), m - {l[k].0})
  {
    var l', m' := SwappedOut(l, k), m - {l[k].0};
    forall x | x in m' ensures Listed(l', x) {
      assert Listed(l, x);
      var i :| 0 <= i < |l| && l[i].0 == x;
      assert l'[if i < |l| - 1 then i else k].0 == x;
    }
  }

  // ----- what a choice within a chain depends on ------------------------------------

  predicate SameView(n: Node, n': Node) {
    n'.srcs == n.srcs && n'.now == n.now && n'.xroutes == n.xroutes && n'.config == n.config
  }

  lemma {:induction false} BestFromView(n: Node, n': Node, c: Chain, feasible: bool,
                                        exclude: Option<Neighbour>, i: nat, best: nat)
    requires SameView(n, n') && best < |c| && i <= |c|
    ensures BestFrom(n, c, feasible, exclude, i, best) == BestFrom(n', c, feasible, exclude, i, best)
    decreases |c| - i
  {
    hide UpdateFeasible, RouteMetric, RouteExpired;
    if i < |c| {
      BestFromView(n, n', c, feasible, exclude, i + 1, i);
      BestFromView(n, n', c, feasible, exclude, i + 1, best);
    }
  }

  lemma ConsideredView(n: Node, n': Node, d: Dest, c: Chain, j: nat)
    requires SameView(n, n') && j < |c|
    ensures Considered(n, d, c, j) == Considered(n', d, c, j)
  {
    hide UpdateFeasible, RouteMetric, Installed, Switched;
  }

  lemma AfterChangeView(n: Node, n': Node, d: Dest, c: Chain, j: nat, before: nat)
    requires SameView(n, n') && j < |c|
    ensures AfterChange(n, d, c, j, before) == AfterChange(n', d, c, j, before)
  {
    hide Considered, BestFrom;
    BestFromView(n, n', c, true, None, 1, 0);
    ConsideredView(n, n', d, c, j);
    ConsideredView(n, n', d, c, BestIndex(n, c, true, None));
  }

  lemma AfterLossView(n: Node, n': Node, d: Dest, c: Chain)
    requires SameView(n, n')
    ensures AfterLoss(n, d, c) == AfterLoss(n', d, c)
  {
    hide Considered, BestFrom;
    if c != [] {
      BestFromView(n, n', c, true, None, 1, 0);
      ConsideredView(n, n', d, c, BestIndex(n, c, true, None));
    }
  }

  lemma WithChainTwice(n: Node, d: Dest, c: Chain, c': Chain)
    requires c == [] ==> c' == []
    ensures WithChain(WithChain(n, d, c), d, c') == WithChain(n, d, c')
  {
    assert n.chains - {d} - {d} == n.chains - {d};
    assert n.chains[d := c] - {d} == n.chains - {d};
    assert n.chains[d := c][d := c'] == n.chains[d := c'];
  }
}
