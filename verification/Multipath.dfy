/** The multipath chain of a best path (bgpd/bgp_mpath.c).

    Paths are objects linked by `next` and `prev`; the best path heads the chain.  The walk of
    `bgp_info_mpath_update` runs along the old chain and the new candidate list in parallel and
    relinks paths as it goes.  It is proved to leave exactly the chain that `Greedy` picks. */
module Multipath {
  import opened Wrappers
  import opened BgpPeers
  import opened Seqs

  /** The multiprotocol next hop attributes; `length` says which of them are meaningful. */
  datatype Extra = Extra(length: nat, globalV4: nat, globalV6: nat, localV6: nat)
  datatype Attr = Attr(nexthop: nat, extra: Option<Extra>)

  function Sign(a: int, b: int): int {
    if a < b then -1 else if a > b then 1 else 0
  }

  function ExtraCmp(a: Extra, b: Extra): int {
    if a.length == 4 || a.length == 12 then Sign(a.globalV4, b.globalV4)
    else if a.length == 16 then Sign(a.globalV6, b.globalV6)
    else if a.length == 32 then
      var c := Sign(a.globalV6, b.globalV6);
      if c != 0 then c else Sign(a.localV6, b.localV6)
    else 0
  }

  function NexthopCmp(a: Attr, b: Attr): int {
    var c := Sign(a.nexthop, b.nexthop);
    if c == 0 && a.extra.Some? && b.extra.Some? && a.extra.value.length == b.extra.value.length then
      ExtraCmp(a.extra.value, b.extra.value)
    else c
  }

  class BgpInfo {
    const attr: Attr
    const address: nat
    const sort: PeerSort
    var next: BgpInfo?
    var prev: BgpInfo?
    var count: nat
    var multipath: bool
    var changed: bool

    constructor (attr: Attr, address: nat, sort: PeerSort)
      ensures this.attr == attr && this.address == address && this.sort == sort
      ensures Chain([this]) && count == 0 && !multipath && !changed
    {
      this.attr, this.address, this.sort := attr, address, sort;
      next, prev, count, multipath, changed := null, null, 0, false, false;
    }
  }

  /** bgp_info_mpath_cmp: by next hop, then by peer address. */
  function MpathCmp(a: BgpInfo, b: BgpInfo): int {
    var c := NexthopCmp(a.attr, b.attr);
    if c != 0 then c else Sign(a.address, b.address)
  }

  lemma MpathCmpAntisymmetric(a: BgpInfo, b: BgpInfo)
    ensures MpathCmp(a, b) == -MpathCmp(b, a)
  {
  }

  // ----- chains ---------------------------------------------------------------------

  ghost predicate Distinct(s: seq<BgpInfo>) {
    forall i, j :: 0 <= i < j < |s| ==> s[i] != s[j]
  }

  function After(s: seq<BgpInfo>, i: int): BgpInfo?
    requires 0 <= i < |s|
  {
    if i + 1 < |s| then s[i + 1] else null
  }

  function Before(s: seq<BgpInfo>, i: int): BgpInfo?
    requires 0 <= i < |s|
  {
    if 0 < i then s[i - 1] else null
  }

  ghost predicate LinkedAt(s: seq<BgpInfo>, i: int)
    requires 0 <= i < |s|
    reads s`next, s`prev
  {
    s[i].next == After(s, i) && s[i].prev == Before(s, i)
  }

  /** `s` is a doubly linked list, in this order. */
  ghost predicate Chain(s: seq<BgpInfo>)
    reads s`next, s`prev
  {
    && Distinct(s)
    && forall i :: 0 <= i < |s| ==> LinkedAt(s, i)
  }

  function Without(s: seq<BgpInfo>, k: nat): seq<BgpInfo>
    requires k < |s|
  {
    s[..k] + s[k + 1..]
  }

  lemma WithoutFacts(s: seq<BgpInfo>, k: nat)
    requires Distinct(s) && k < |s|
    ensures Distinct(Without(s, k)) && s[k] !in Without(s, k)
    ensures forall o :: o in Without(s, k) <==> o in s && o != s[k]
  {
    var d := Without(s, k);
    assert forall i :: 0 <= i < |d| ==> d[i] == if i < k then s[i] else s[i + 1];
    forall o | o in s && o != s[k] ensures o in d {
      var i :| 0 <= i < |s| && s[i] == o;
      assert d[if i < k then i else i - 1] == o;
    }
  }

  /** bgp_info_mpath_dequeue: takes a path out of the chain it is on. */
  method Dequeue(binfo: BgpInfo, ghost c: seq<BgpInfo>, ghost k: nat)
    requires Chain(c) && k < |c| && c[k] == binfo
    modifies c`next, c`prev, binfo`multipath
    ensures Chain(Without(c, k)) && Chain([binfo]) && binfo !in Without(c, k)
    ensures !binfo.multipath
  {
    assert LinkedAt(c, k);
    if binfo.prev != null {
      binfo.prev.next := binfo.next;
    }
    if binfo.next != null {
      binfo.next.prev := binfo.prev;
    }
    binfo.next, binfo.prev := null, null;
    binfo.multipath := false;
    ghost var d := Without(c, k);
    WithoutFacts(c, k);
    forall i | 0 <= i < |d| ensures LinkedAt(d, i) {
      var j := if i < k then i else i + 1;
      assert d[i] == c[j] && old(LinkedAt(c, j));
      assert j == k - 1 || c[j] != c[k - 1 + if k == 0 then 1 else 0];
      assert c[j].next == if j == k - 1 then After(c, k) else After(c, j);
      assert c[j].prev == if j == k + 1 then Before(c, k) else Before(c, j);
    }
  }

  function Inserted(c: seq<BgpInfo>, k: nat, x: BgpInfo): seq<BgpInfo>
    requires k < |c|
  {
    c[..k + 1] + [x] + c[k + 1..]
  }

  /** bgp_info_mpath_enqueue: puts a path that is on no chain behind `prevInfo`. */
  method Enqueue(prevInfo: BgpInfo, binfo: BgpInfo, ghost c: seq<BgpInfo>, ghost k: nat)
    requires Chain(c) && k < |c| && c[k] == prevInfo
    requires Chain([binfo]) && binfo !in c
    modifies c`next, c`prev, binfo`next, binfo`prev, binfo`multipath
    ensures Chain(Inserted(c, k, binfo))
    ensures binfo.multipath
  {
    assert LinkedAt(c, k);
    binfo.next := prevInfo.next;
    binfo.prev := prevInfo;
    if prevInfo.next != null {
      prevInfo.next.prev := binfo;
    }
    prevInfo.next := binfo;
    binfo.multipath := true;
    ghost var d := Inserted(c, k, binfo);
    forall i | 0 <= i < |d| ensures LinkedAt(d, i) {
      if i != k + 1 {
        var j := if i <= k then i else i - 1;
        assert d[i] == c[j] && old(LinkedAt(c, j));
        assert c[j].next == if j == k then binfo else After(c, j);
        assert c[j].prev == if j == k + 1 then binfo else Before(c, j);
      }
    }
  }

  // ----- the simple form ------------------------------------------------------------

  /** The chain to end up with: paths of the candidate list in order, other than the best one,
      each with a next hop different from the pick before it, while there is room. */
  function Greedy(list: seq<BgpInfo>, best: BgpInfo, last: BgpInfo, room: nat): seq<BgpInfo> {
    if list == [] || room == 0 then []
    else if list[0] != best && NexthopCmp(last.attr, list[0].attr) != 0 then
      [list[0]] + Greedy(list[1..], best, list[0], room - 1)
    else Greedy(list[1..], best, last, room)
  }

  lemma {:induction false} GreedyFromList(list: seq<BgpInfo>, best: BgpInfo, last: BgpInfo, room: nat)
    ensures forall x :: x in Greedy(list, best, last, room) ==> x in list && x != best
    ensures |Greedy(list, best, last, room)| <= room
    decreases list
  {
    if list != [] && room > 0 {
      if list[0] != best && NexthopCmp(last.attr, list[0].attr) != 0 {
        GreedyFromList(list[1..], best, list[0], room - 1);
      } else {
        GreedyFromList(list[1..], best, last, room);
      }
    }
  }

  predicate Alternates(g: seq<BgpInfo>) {
    forall i :: 0 < i < |g| ==> NexthopCmp(g[i - 1].attr, g[i].attr) != 0
  }

  /** Consecutive picks have different next hops. */
  lemma {:induction false} GreedyAlternates(list: seq<BgpInfo>, best: BgpInfo, last: BgpInfo, room: nat)
    ensures Alternates([last] + Greedy(list, best, last, room))
    decreases list
  {
    if list != [] && room > 0 {
      if list[0] != best && NexthopCmp(last.attr, list[0].attr) != 0 {
        var g := [list[0]] + Greedy(list[1..], best, list[0], room - 1);
        GreedyAlternates(list[1..], best, list[0], room - 1);
        assert forall i :: 1 < i < |[last] + g| ==> ([last] + g)[i] == g[i - 1];
      } else {
        GreedyAlternates(list[1..], best, last, room);
      }
    }
  }

  // ----- the walk -------------------------------------------------------------------

  /** The two chains that exist during the walk: the new one, headed by the best path, and what
      is left of the old one.  All other paths in play are on neither. */
  ghost predicate Links(u: set<BgpInfo>, head: seq<BgpInfo>, picked: seq<BgpInfo>, rest: seq<BgpInfo>)
    reads u`next, u`prev, u`multipath
  {
    && (forall o :: o in head ==> o in u && o !in rest && o !in picked)
    && (forall o :: o in picked ==> o in u && o !in rest)
    && (forall o :: o in rest ==> o in u)
    && Chain(head + picked) && Chain(rest)
    && (forall o :: o in u && o !in head && o !in picked && o !in rest ==> o.next == null && o.prev == null)
    && (forall o :: o in u ==> (o.multipath <==> o in picked || o in rest))
  }

  /** The current path of the old chain leaves it. */
  method DropCurrent(cur: BgpInfo, ghost u: set<BgpInfo>, ghost head: seq<BgpInfo>,
                     ghost picked: seq<BgpInfo>, ghost rest: seq<BgpInfo>)
    requires Links(u, head, picked, rest) && rest != [] && rest[0] == cur
    modifies u`next, u`prev, u`multipath
    ensures Links(u, head, picked, rest[1..]) && cur !in rest[1..]
  {
    WithoutFacts(rest, 0);
    assert Without(rest, 0) == rest[1..];
    Dequeue(cur, rest, 0);
    assert LinkedAt([cur], 0);
  }

  /** A path on neither chain joins the new one. */
  method Pick(last: BgpInfo, x: BgpInfo, ghost u: set<BgpInfo>, ghost head: seq<BgpInfo>,
              ghost picked: seq<BgpInfo>, ghost rest: seq<BgpInfo>)
    requires Links(u, head, picked, rest) && x in u && x !in head && x !in picked && x !in rest
    requires head != [] && last == (head + picked)[|head + picked| - 1]
    modifies u`next, u`prev, u`multipath
    ensures Links(u, head, picked + [x], rest)
  {
    ghost var c := head + picked;
    Enqueue(last, x, c, |c| - 1);
    assert Inserted(c, |c| - 1, x) == c + [x];
    assert c + [x] == head + (picked + [x]);
  }

  function Remove(s: seq<BgpInfo>, x: BgpInfo): seq<BgpInfo> {
    if s == [] then [] else if s[0] == x then s[1..] else [s[0]] + Remove(s[1..], x)
  }

  lemma {:induction false} RemoveAt(s: seq<BgpInfo>, k: nat)
    requires Distinct(s) && k < |s|
    ensures Remove(s, s[k]) == Without(s, k)
  {
    if k > 0 {
      assert s[0] != s[k];
      RemoveAt(s[1..], k - 1);
      assert s[1..][k - 1] == s[k];
      assert Without(s, k) == [s[0]] + Without(s[1..], k - 1);
    }
  }

  lemma {:induction false} RemoveAbsent(s: seq<BgpInfo>, x: BgpInfo)
    requires x !in s
    ensures Remove(s, x) == s
  {
    if s != [] {
      RemoveAbsent(s[1..], x);
    }
  }

  lemma RemoveMembers(s: seq<BgpInfo>, x: BgpInfo)
    requires Distinct(s)
    ensures forall i :: 0 <= i < |Remove(s, x)| ==> Remove(s, x)[i] in s && Remove(s, x)[i] != x
    ensures forall o :: o in s && o != x ==> o in Remove(s, x)
  {
    if x in s {
      var k: nat :| k < |s| && s[k] == x;
      WithoutFacts(s, k);
      RemoveAt(s, k);
    } else {
      RemoveAbsent(s, x);
    }
  }

  /** The chain from which a dequeue of `x` takes it, and its place there. */
  lemma LocateForDequeue(x: BgpInfo, head: seq<BgpInfo>, old_: seq<BgpInfo>) returns (c: seq<BgpInfo>, k: nat)
    requires Chain(head + old_) && x !in head
    requires x !in old_ ==> x.next == null && x.prev == null
    ensures k < |c| && c[k] == x && Chain(c) && Distinct(old_)
    ensures if x in old_ then c == head + old_ && head + Remove(old_, x) == Without(c, k)
            else c == [x] && Remove(old_, x) == old_
  {
    assert Distinct(old_) by {
      assert forall i :: 0 <= i < |old_| ==> old_[i] == (head + old_)[|head| + i];
    }
    if x in old_ {
      var j: nat :| j < |old_| && old_[j] == x;
      c, k := head + old_, |head| + j;
      RemoveAt(old_, j);
      assert Without(c, k) == head + Without(old_, j);
    } else {
      c, k := [x], 0;
      assert LinkedAt([x], 0);
      RemoveAbsent(old_, x);
    }
  }

  lemma LocateOnChain(x: BgpInfo, rest: seq<BgpInfo>) returns (c: seq<BgpInfo>, k: nat)
    requires Chain(rest)
    requires x !in rest ==> x.next == null && x.prev == null
    ensures k < |c| && c[k] == x && Chain(c)
    ensures if x in rest then c == rest && Remove(rest, x) == Without(c, k)
            else c == [x] && Remove(rest, x) == rest
  {
    if x in rest {
      k :| k < |rest| && rest[k] == x;
      c := rest;
      RemoveAt(rest, k);
    } else {
      c, k := [x], 0;
      assert LinkedAt([x], 0);
      RemoveAbsent(rest, x);
    }
  }

  /** First step: the new best path leaves the old chain, if it is on it. */
  method DetachNewBest(newBest: BgpInfo, ghost u: set<BgpInfo>, ghost head: seq<BgpInfo>, ghost old_: seq<BgpInfo>)
    requires newBest in u && newBest !in head && Links(u, head, old_, [])
    modifies u`next, u`prev, u`multipath
    ensures Links(u, head, Remove(old_, newBest), []) && newBest !in Remove(old_, newBest)
  {
    assert Chain(head + old_) && forall o :: o in old_ ==> o in u;
    ghost var c, k := LocateForDequeue(newBest, head, old_);
    RemoveMembers(old_, newBest);
    WithoutFacts(c, k);
    Dequeue(newBest, c, k);
    assert LinkedAt([newBest], 0);
  }

  /** A candidate leaves the old chain, if it is further down on it. */
  method DropLater(x: BgpInfo, ghost u: set<BgpInfo>, ghost head: seq<BgpInfo>,
                   ghost picked: seq<BgpInfo>, ghost rest: seq<BgpInfo>)
    requires x in u && x !in head && x !in picked && Links(u, head, picked, rest)
    modifies u`next, u`prev, u`multipath
    ensures Links(u, head, picked, Remove(rest, x)) && x !in Remove(rest, x)
  {
    ghost var c, k := LocateOnChain(x, rest);
    RemoveMembers(rest, x);
    WithoutFacts(c, k);
    Dequeue(x, c, k);
    assert LinkedAt([x], 0);
  }

  /** Second step: the old best path hands over its chain. */
  method ReleaseOldBest(oldBest: BgpInfo, ghost u: set<BgpInfo>, ghost chain: seq<BgpInfo>)
    returns (first: BgpInfo?, oldCount: nat)
    requires Links(u, [oldBest], chain, [])
    modifies u`next, u`prev, u`multipath, oldBest`count
    ensures Links(u, [], [], chain)
    ensures first == if chain == [] then null else chain[0]
    ensures oldCount == old(oldBest.count) && oldBest.count == 0
  {
    ghost var c := [oldBest] + chain;
    assert LinkedAt(c, 0);
    first := oldBest.next;
    oldCount := oldBest.count;
    oldBest.count := 0;
    WithoutFacts(c, 0);
    Dequeue(oldBest, c, 0);
    assert Without(c, 0) == chain;
    assert LinkedAt([oldBest], 0);
  }

  // ----- what the walk computes -----------------------------------------------------

  function Room(maxpaths: nat, used: nat): nat {
    if maxpaths > used then maxpaths - used else 0
  }

  predicate SortedList(s: seq<BgpInfo>) {
    forall i, j :: 0 <= i < j < |s| ==> MpathCmp(s[i], s[j]) < 0
  }

  /** Everything the walk keeps true that is not about links: the picks so far and those still
      to come make up the goal, and the change mark is right so far. */
  ghost predicate Progress(best: BgpInfo, picked: seq<BgpInfo>, rest: seq<BgpInfo>, todo: seq<BgpInfo>,
                           last: BgpInfo, room: nat, changed: bool, goal: seq<BgpInfo>, start: seq<BgpInfo>)
  {
    && goal == picked + Greedy(todo, best, last, room)
    && (!changed ==> picked + rest == start)
    && Distinct(todo) && (forall o :: o in todo ==> o !in picked)
  }

  /** With both lists in order, a mark means a difference. */
  ghost predicate MarkExact(rest: seq<BgpInfo>, todo: seq<BgpInfo>, changed: bool,
                            goal: seq<BgpInfo>, start: seq<BgpInfo>)
  {
    SortedList(rest) && SortedList(todo) && (changed ==> goal != start)
  }

  lemma DistinctTail(s: seq<BgpInfo>)
    requires Distinct(s) && s != []
    ensures Distinct(s[1..]) && s[0] !in s[1..]
  {
  }

  lemma SortedTail(s: seq<BgpInfo>)
    requires SortedList(s) && s != []
    ensures SortedList(s[1..])
  {
  }

  /** The candidate is taken. */
  lemma PickKeeps(best: BgpInfo, picked: seq<BgpInfo>, rest: seq<BgpInfo>, rest': seq<BgpInfo>, todo: seq<BgpInfo>,
                  last: BgpInfo, room: nat, changed: bool, changed': bool, goal: seq<BgpInfo>, start: seq<BgpInfo>)
    requires Progress(best, picked, rest, todo, last, room, changed, goal, start)
    requires todo != [] && room > 0 && todo[0] != best && NexthopCmp(last.attr, todo[0].attr) != 0
    requires changed' || (!changed && rest != [] && todo[0] == rest[0] && rest' == rest[1..])
    ensures Progress(best, picked + [todo[0]], rest', todo[1..], todo[0], room - 1, changed', goal, start)
  {
    DistinctTail(todo);
    AppendCons(picked, todo[0], Greedy(todo[1..], best, todo[0], room - 1));
    if !changed' {
      assert rest == [rest[0]] + rest[1..];
      AppendCons(picked, rest[0], rest[1..]);
    }
  }

  /** The candidate is passed over. */
  lemma SkipKeeps(best: BgpInfo, picked: seq<BgpInfo>, rest: seq<BgpInfo>, rest': seq<BgpInfo>, todo: seq<BgpInfo>,
                  last: BgpInfo, room: nat, changed: bool, changed': bool, goal: seq<BgpInfo>, start: seq<BgpInfo>)
    requires Progress(best, picked, rest, todo, last, room, changed, goal, start)
    requires todo != [] && (room == 0 || todo[0] == best || NexthopCmp(last.attr, todo[0].attr) == 0)
    requires changed' || (changed == changed' && rest' == rest)
    ensures Progress(best, picked, rest', todo[1..], last, room, changed', goal, start)
  {
    DistinctTail(todo);
  }

  /** A path that is on the old chain but neither picked nor still to be picked makes the goal
      differ from the old chain. */
  lemma LossDiffers(best: BgpInfo, x: BgpInfo, picked: seq<BgpInfo>, rest: seq<BgpInfo>, todo: seq<BgpInfo>,
                    last: BgpInfo, room: nat, goal: seq<BgpInfo>, start: seq<BgpInfo>)
    requires goal == picked + Greedy(todo, best, last, room) && picked + rest == start
    requires x in rest && x !in picked && x !in todo
    ensures goal != start
  {
    GreedyFromList(todo, best, last, room);
    assert x in start;
    assert x !in goal;
  }

  /** A pick that was not on the old chain makes the goal differ from it. */
  lemma GainDiffers(x: BgpInfo, picked: seq<BgpInfo>, rest: seq<BgpInfo>, goal: seq<BgpInfo>, start: seq<BgpInfo>)
    requires picked + rest == start && x in goal && x !in picked && x !in rest
    ensures goal != start
  {
    assert x !in start;
  }

  lemma SortedHeadFirst(rest: seq<BgpInfo>, x: BgpInfo)
    requires SortedList(rest) && rest != [] && rest[0] != x && MpathCmp(rest[0], x) >= 0
    ensures x !in rest
  {
  }

  lemma SortedNotAhead(todo: seq<BgpInfo>, c: BgpInfo)
    requires SortedList(todo) && (todo == [] || (todo[0] != c && MpathCmp(c, todo[0]) < 0))
    ensures c !in todo
  {
    if todo != [] {
      MpathCmpAntisymmetric(c, todo[0]);
    }
  }

  function First(s: seq<BgpInfo>): BgpInfo? {
    if s == [] then null else s[0]
  }

  function Last(best: BgpInfo, picked: seq<BgpInfo>): BgpInfo {
    if picked == [] then best else picked[|picked| - 1]
  }

  /** What the walk is given: the best path, how many paths are wanted, the paths in play, the
      chain to reach, the chain to start from, and whether both lists are in order. */
  datatype Task = Task(best: BgpInfo, maxpaths: nat, u: set<BgpInfo>, goal: seq<BgpInfo>,
                       start: seq<BgpInfo>, sorted: bool)

  /** The variables of the loop: the rest of the candidate list, the place on the old chain, the
      end of the new chain, its length with the best path, and the change mark. */
  datatype Cursor = Cursor(todo: seq<BgpInfo>, cur: BgpInfo?, last: BgpInfo, count: nat, changed: bool)

  ghost predicate Inv(t: Task, c: Cursor, picked: seq<BgpInfo>, rest: seq<BgpInfo>)
    reads t.u`next, t.u`prev, t.u`multipath
  {
    && Links(t.u, [t.best], picked, rest)
    && c.cur == First(rest) && c.last == Last(t.best, picked) && c.count == 1 + |picked|
    && (forall o :: o in c.todo ==> o in t.u)
    && Progress(t.best, picked, rest, c.todo, c.last, Room(t.maxpaths, c.count), c.changed, t.goal, t.start)
    && (t.sorted ==> MarkExact(rest, c.todo, c.changed, t.goal, t.start))
  }

  lemma LastOfChain(best: BgpInfo, picked: seq<BgpInfo>)
    ensures var c := [best] + picked; c[|c| - 1] == Last(best, picked)
  {
  }

  /** The path was a multipath and is still a candidate. */
  method StepBoth(c: Cursor, best: BgpInfo, maxpaths: nat, ghost t: Task, ghost picked: seq<BgpInfo>, ghost rest: seq<BgpInfo>)
    returns (n: Cursor, ghost picked': seq<BgpInfo>, ghost rest': seq<BgpInfo>)
    requires Inv(t, c, picked, rest) && t.best == best && t.maxpaths == maxpaths
    requires c.todo != [] && c.cur != null && c.todo[0] == c.cur
    modifies t.u`next, t.u`prev, t.u`multipath
    ensures Inv(t, n, picked', rest') && |n.todo| + |rest'| < |c.todo| + |rest|
  {
    var cur := c.cur;
    ghost var room := Room(maxpaths, c.count);
    assert LinkedAt(rest, 0);
    var next := cur.next;
    DistinctTail(c.todo);
    if t.sorted {
      SortedTail(c.todo);
      SortedTail(rest);
    }
    rest' := rest[1..];
    DropCurrent(cur, t.u, [best], picked, rest);
    if c.count < maxpaths && NexthopCmp(c.last.attr, cur.attr) != 0 {
      LastOfChain(best, picked);
      Pick(c.last, cur, t.u, [best], picked, rest');
      PickKeeps(best, picked, rest, rest', c.todo, c.last, room, c.changed, c.changed, t.goal, t.start);
      picked' := picked + [cur];
      n := Cursor(c.todo[1..], next, cur, c.count + 1, c.changed);
    } else {
      SkipKeeps(best, picked, rest, rest', c.todo, c.last, room, c.changed, true, t.goal, t.start);
      if !c.changed {
        LossDiffers(best, cur, picked, rest, c.todo[1..], c.last, room, t.goal, t.start);
      }
      picked' := picked;
      n := Cursor(c.todo[1..], next, c.last, c.count, true);
    }
  }

  /** The path was a multipath and is no longer a candidate. */
  method StepPurge(c: Cursor, best: BgpInfo, ghost t: Task, ghost picked: seq<BgpInfo>, ghost rest: seq<BgpInfo>)
    returns (n: Cursor, ghost rest': seq<BgpInfo>)
    requires Inv(t, c, picked, rest) && t.best == best
    requires c.cur != null && (c.todo == [] || (c.todo[0] != c.cur && MpathCmp(c.cur, c.todo[0]) < 0))
    modifies t.u`next, t.u`prev, t.u`multipath
    ensures Inv(t, n, picked, rest') && n.todo == c.todo && |rest'| < |rest|
  {
    assert LinkedAt(rest, 0);
    var next := c.cur.next;
    if t.sorted {
      SortedTail(rest);
      SortedNotAhead(c.todo, c.cur);
      if !c.changed {
        LossDiffers(best, c.cur, picked, rest, c.todo, c.last, Room(t.maxpaths, c.count), t.goal, t.start);
      }
    }
    rest' := rest[1..];
    DropCurrent(c.cur, t.u, [best], picked, rest);
    n := c.(cur := next, changed := true);
  }

  /** The candidate was not met on the old chain at this point. */
  method StepCandidate(c: Cursor, best: BgpInfo, maxpaths: nat, ghost t: Task, ghost picked: seq<BgpInfo>, ghost rest: seq<BgpInfo>)
    returns (n: Cursor, ghost picked': seq<BgpInfo>, ghost rest': seq<BgpInfo>)
    requires Inv(t, c, picked, rest) && t.best == best && t.maxpaths == maxpaths
    requires c.todo != [] && (c.cur == null || (c.todo[0] != c.cur && MpathCmp(c.cur, c.todo[0]) >= 0))
    modifies t.u`next, t.u`prev, t.u`multipath
    ensures Inv(t, n, picked', rest') && |n.todo| < |c.todo| && |rest'| <= |rest|
  {
    var x := c.todo[0];
    ghost var room := Room(maxpaths, c.count);
    if t.sorted {
      SortedTail(c.todo);
    }
    if c.count < maxpaths && x != best && NexthopCmp(c.last.attr, x.attr) != 0 {
      rest' := Remove(rest, x);
      RemoveKeepsFirst(rest, x);
      PickKeeps(best, picked, rest, rest', c.todo, c.last, room, c.changed, true, t.goal, t.start);
      if t.sorted {
        assert x !in rest by { if rest != [] { SortedHeadFirst(rest, x); } }
        RemoveAbsent(rest, x);
        if !c.changed {
          GainDiffers(x, picked, rest, t.goal, t.start);
        }
      }
      DropLater(x, t.u, [best], picked, rest);
      LastOfChain(best, picked);
      Pick(c.last, x, t.u, [best], picked, rest');
      picked' := picked + [x];
      n := Cursor(c.todo[1..], c.cur, x, c.count + 1, true);
    } else {
      SkipKeeps(best, picked, rest, rest, c.todo, c.last, room, c.changed, c.changed, t.goal, t.start);
      picked', rest' := picked, rest;
      n := c.(todo := c.todo[1..]);
    }
  }

  lemma InvStart(t: Task, c: Cursor)
    requires Links(t.u, [t.best], [], t.start) && t.goal == Greedy(c.todo, t.best, t.best, Room(t.maxpaths, 1))
    requires Distinct(c.todo) && (forall o :: o in c.todo ==> o in t.u)
    requires t.sorted ==> SortedList(c.todo) && SortedList(t.start)
    requires c == Cursor(c.todo, First(t.start), t.best, 1, false)
    ensures Inv(t, c, [], t.start)
  {
    assert [] + t.start == t.start && [] + t.goal == t.goal;
  }

  lemma InvEnd(t: Task, c: Cursor, picked: seq<BgpInfo>, rest: seq<BgpInfo>)
    requires Inv(t, c, picked, rest) && c.cur == null && (c.todo == [] || c.count >= t.maxpaths)
    ensures Links(t.u, [t.best], t.goal, []) && c.count == 1 + |t.goal|
    ensures !c.changed ==> t.goal == t.start
    ensures t.sorted && c.changed ==> t.goal != t.start
  {
    assert rest == [] && picked + [] == picked;
  }

  /** The ordered walk through the old chain and the candidate list. */
  method Walk(newBest: BgpInfo, first: BgpInfo?, mpList: seq<BgpInfo>, maxpaths: nat,
              ghost u: set<BgpInfo>, ghost start: seq<BgpInfo>)
    returns (count: nat, changed: bool, ghost goal: seq<BgpInfo>)
    requires Links(u, [newBest], [], start) && first == First(start)
    requires Distinct(mpList) && forall o :: o in mpList ==> o in u
    modifies u`next, u`prev, u`multipath
    ensures goal == Greedy(mpList, newBest, newBest, Room(maxpaths, 1))
    ensures Links(u, [newBest], goal, []) && count == 1 + |goal|
    ensures !changed ==> goal == start
    ensures SortedList(mpList) && SortedList(start) && changed ==> goal != start
  {
    goal := Greedy(mpList, newBest, newBest, Room(maxpaths, 1));
    ghost var sorted := SortedList(mpList) && SortedList(start);
    ghost var t := Task(newBest, maxpaths, u, goal, start, sorted);
    ghost var picked: seq<BgpInfo>, rest := [], start;
    var c := Cursor(mpList, first, newBest, 1, false);
    InvStart(t, c);
    hide Inv, Links, Greedy, SortedList;
    while c.todo != [] || c.cur != null
      invariant Inv(t, c, picked, rest)
      decreases |c.todo| + |rest|
      modifies u`next, u`prev, u`multipath
    {
      if c.cur == null && c.count >= maxpaths {
        break;
      }
      if c.cur != null && c.todo != [] && c.todo[0] == c.cur {
        c, picked, rest := StepBoth(c, newBest, maxpaths, t, picked, rest);
      } else if c.cur != null && (c.todo == [] || MpathCmp(c.cur, c.todo[0]) < 0) {
        c, rest := StepPurge(c, newBest, t, picked, rest);
      } else {
        c, picked, rest := StepCandidate(c, newBest, maxpaths, t, picked, rest);
      }
    }
    InvEnd(t, c, picked, rest);
    count, changed := c.count, c.changed;
  }

  lemma RemoveKeepsFirst(s: seq<BgpInfo>, x: BgpInfo)
    requires s == [] || s[0] != x
    ensures First(Remove(s, x)) == First(s) && |Remove(s, x)| <= |s|
  {
    RemoveShorter(s, x);
  }

  lemma {:induction false} RemoveShorter(s: seq<BgpInfo>, x: BgpInfo)
    ensures |Remove(s, x)| <= |s|
  {
    if s != [] {
      RemoveShorter(s[1..], x);
    }
  }

  lemma RemoveSorted(s: seq<BgpInfo>, x: BgpInfo)
    requires Distinct(s)
    ensures x in s ==> |Remove(s, x)| == |s| - 1
    ensures x !in s ==> Remove(s, x) == s
    ensures SortedList(s) ==> SortedList(Remove(s, x))
  {
    if x in s {
      var k: nat :| k < |s| && s[k] == x;
      RemoveAt(s, k);
    } else {
      RemoveAbsent(s, x);
    }
  }

  /** Without a new best path the candidate list is empty and the old chain is only taken down. */
  method PurgeAll(first: BgpInfo?, ghost u: set<BgpInfo>, ghost start: seq<BgpInfo>)
    requires Links(u, [], [], start) && first == First(start)
    modifies u`next, u`prev, u`multipath
    ensures Links(u, [], [], [])
  {
    var cur := first;
    ghost var rest := start;
    while cur != null
      invariant Links(u, [], [], rest) && cur == First(rest)
      decreases |rest|
      modifies u`next, u`prev, u`multipath
    {
      assert LinkedAt(rest, 0);
      var next := cur.next;
      DropCurrent(cur, u, [], [], rest);
      rest, cur := rest[1..], next;
    }
  }

  /** The state the daemon keeps between updates: the old best path heads its chain and knows its
      length, and no other path in play is linked. */
  ghost predicate Settled(u: set<BgpInfo>, best: BgpInfo?, chain: seq<BgpInfo>)
    reads u`next, u`prev, u`multipath, u`count
  {
    if best == null then chain == [] && Links(u, [], [], [])
    else best in u && Links(u, [best], chain, []) && best.count == |chain|
  }

  function Wanted(best: BgpInfo, maxIbgp: nat, maxEbgp: nat): nat {
    if best.sort.Ibgp? then maxIbgp else maxEbgp
  }

  /** Detaches the new best path from the old chain and takes the chain over. */
  method Prepare(newBest: BgpInfo?, oldBest: BgpInfo?, ghost u: set<BgpInfo>, ghost old_: seq<BgpInfo>)
    returns (first: BgpInfo?, oldCount: nat, ghost start: seq<BgpInfo>)
    requires Settled(u, oldBest, old_) && (newBest != null ==> newBest in u)
    modifies u`next, u`prev, u`multipath, u`count
    ensures start == if newBest != null && newBest != oldBest then Remove(old_, newBest) else old_
    ensures Links(u, [], [], start) && first == First(start) && oldCount == |old_|
    ensures newBest != null ==> newBest !in start
    ensures oldBest != null ==> oldBest.count == 0
  {
    start := old_;
    ghost var head := if oldBest == null then [] else [oldBest];
    if newBest != null && newBest != oldBest {
      DetachNewBest(newBest, u, head, old_);
      start := Remove(old_, newBest);
    }
    first, oldCount := null, 0;
    if oldBest != null {
      first, oldCount := ReleaseOldBest(oldBest, u, start);
    }
  }

  lemma AdoptHead(u: set<BgpInfo>, best: BgpInfo, start: seq<BgpInfo>)
    requires best in u && best !in start && Links(u, [], [], start)
    ensures Links(u, [best], [], start)
  {
    assert [best] + [] == [best];
    assert LinkedAt([best], 0);
  }

  lemma MarkMeansChange(best: BgpInfo, old_: seq<BgpInfo>, start: seq<BgpInfo>, goal: seq<BgpInfo>, changed: bool)
    requires Distinct(old_) && best !in goal
    requires start == old_ || start == Remove(old_, best)
    requires !changed ==> goal == start
    ensures !changed && |goal| == |old_| ==> goal == old_
    ensures (changed ==> goal != start) && (changed || |goal| != |old_|) ==> goal != old_
  {
    RemoveSorted(old_, best);
  }

  lemma SettledDistinct(u: set<BgpInfo>, best: BgpInfo?, chain: seq<BgpInfo>)
    requires Settled(u, best, chain)
    ensures Distinct(chain)
  {
    if best != null {
      assert forall i :: 0 <= i < |chain| ==> chain[i] == ([best] + chain)[i + 1];
    }
  }

  /** Last step: length and change flag. */
  method Record(best: BgpInfo, count: nat, changed: bool, oldCount: nat, ghost u: set<BgpInfo>, ghost chain: seq<BgpInfo>)
    requires best in u && Links(u, [best], chain, []) && count == 1 + |chain|
    modifies best`count, best`changed
    ensures Settled(u, best, chain)
    ensures best.changed <==> old(best.changed) || changed || |chain| != oldCount
  {
    best.count := count - 1;
    if changed || best.count != oldCount {
      best.changed := true;
    }
  }

  /** `bgp_info_mpath_update`.  Whatever the old chain was, the new best path ends up with the
      chain that `Greedy` picks, knows its length, and the multipath flag is set exactly on its
      members (that is part of `Settled`).  If the change flag is not set the chain is the old
      one; and when both lists are in `MpathCmp` order the flag is raised exactly on a change. */
  method Update(newBest: BgpInfo?, oldBest: BgpInfo?, mpList: seq<BgpInfo>, maxIbgp: nat, maxEbgp: nat,
                ghost u: set<BgpInfo>, ghost old_: seq<BgpInfo>)
    returns (ghost chain: seq<BgpInfo>)
    requires Settled(u, oldBest, old_) && (newBest != null ==> newBest in u)
    requires Distinct(mpList) && (forall o :: o in mpList ==> o in u)
    requires newBest == null ==> mpList == []
    modifies u
    ensures Settled(u, newBest, chain)
    ensures newBest != null ==>
              chain == Greedy(mpList, newBest, newBest, Room(Wanted(newBest, maxIbgp, maxEbgp), 1))
    ensures newBest != null && !newBest.changed ==> chain == old_
    ensures newBest != null && SortedList(mpList) && SortedList(old_) && !old(newBest.changed) ==>
              (newBest.changed <==> chain != old_)
    ensures oldBest != null && oldBest != newBest ==> oldBest.count == 0
  {
    hide Greedy, Remove, Distinct, SortedList, Links;
    SettledDistinct(u, oldBest, old_);
    var first, oldCount, start := Prepare(newBest, oldBest, u, old_);
    chain := [];
    if newBest == null {
      PurgeAll(first, u, start);
      return;
    }
    AdoptHead(u, newBest, start);
    var maxpaths := Wanted(newBest, maxIbgp, maxEbgp);
    var count, changed, goal := Walk(newBest, first, mpList, maxpaths, u, start);
    GreedyFromList(mpList, newBest, newBest, Room(maxpaths, 1));
    MarkMeansChange(newBest, old_, start, goal, changed);
    RemoveSorted(old_, newBest);
    Record(newBest, count, changed, oldCount, u, goal);
    chain := goal;
  }
}
