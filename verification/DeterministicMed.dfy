/** bgp_best_selection with deterministic MED (bgpd/bgp_route.c): first the best path of each
    neighbouring AS is found, then the best of these.

    MEDs are only compared between paths of one neighbouring AS.  The point of the option is that
    the path selected no longer depends on the order in which the paths arrived. */
module DeterministicMed {
  import opened Wrappers
  import opened BgpPeers
  import opened AsPath
  import opened Decision
  import opened BestPath

  /** The test by which paths are put together. */
  predicate SameNeighbour(a: PathInfo, b: PathInfo) {
    || SameFirst(SkipConfeds(a.aspath), SkipConfeds(b.aspath), AsSequence)
    || SameFirst(a.aspath, b.aspath, AsConfedSequence)
  }

  predicate Free(paths: seq<PathInfo>, i: int) {
    0 <= i < |paths| && !paths[i].held
  }

  // ----- the two loops --------------------------------------------------------------

  /** The best path so far when those of `members` below `n` have been compared with it in turn. */
  function BestOf(bgp: Bgp, paths: seq<PathInfo>, start: Option<nat>, members: set<nat>, n: nat): (best: Option<nat>)
    requires n <= |paths| && (start.Some? ==> start.value < |paths|)
    ensures best.Some? ==> best.value < |paths|
  {
    if n == 0 then start
    else
      var best := BestOf(bgp, paths, start, members, n - 1);
      if n - 1 in members && (best.None? || Beats(bgp, paths[n - 1], paths[best.value])) then Some(n - 1) else best
  }

  /** The paths behind `i` that are put together with it. */
  function Members(paths: seq<PathInfo>, i: nat, checked: set<nat>): set<nat>
    requires i < |paths|
  {
    set j: nat | i < j < |paths| && j !in checked && !paths[j].held && SameNeighbour(paths[i], paths[j])
  }

  /** BGP_INFO_DMED_CHECK and BGP_INFO_DMED_SELECTED. */
  datatype Marks = Marks(checked: set<nat>, chosen: set<nat>)

  function Group(bgp: Bgp, paths: seq<PathInfo>, i: nat, checked: set<nat>): (best: nat)
    requires i < |paths|
    ensures best < |paths|
  {
    var best := BestOf(bgp, paths, Some(i), Members(paths, i, checked), |paths|);
    if best.Some? then best.value else i
  }

  /** The marks when the paths below `n` have been gone through. */
  function MarksAfter(bgp: Bgp, paths: seq<PathInfo>, n: nat): Marks
    requires n <= |paths|
  {
    if n == 0 then Marks({}, {})
    else
      var m, i := MarksAfter(bgp, paths, n - 1), n - 1;
      if i in m.checked || paths[i].held then m
      else
        var b := Group(bgp, paths, i, m.checked);
        Marks(m.checked + Members(paths, i, m.checked) + {b}, m.chosen + {b})
  }

  function Select(bgp: Bgp, paths: seq<PathInfo>): Option<nat> {
    BestOf(bgp, paths, None, MarksAfter(bgp, paths, |paths|).chosen, |paths|)
  }

  lemma {:induction false} NoneBelow(bgp: Bgp, paths: seq<PathInfo>, start: Option<nat>, members: set<nat>, n: nat)
    requires n <= |paths| && (start.Some? ==> start.value < |paths|) && forall j :: j in members ==> j >= n
    ensures BestOf(bgp, paths, start, members, n) == start
  {
    if n > 0 {
      NoneBelow(bgp, paths, start, members, n - 1);
    }
  }

  /** The loop over the paths behind `i`. */
  method FindGroup(bgp: Bgp, paths: seq<PathInfo>, i: nat, given: set<nat>) returns (best: nat, checked: set<nat>)
    requires i < |paths|
    ensures best == Group(bgp, paths, i, given) && checked == given + Members(paths, i, given)
  {
    hide Beats, SameNeighbour;
    best, checked := i, given;
    ghost var all := Members(paths, i, given);
    NoneBelow(bgp, paths, Some(i), all, i + 1);
    for j := i + 1 to |paths|
      invariant best < |paths| && BestOf(bgp, paths, Some(i), all, j) == Some(best)
      invariant forall x :: x in checked <==> x in given || (x in all && x < j)
    {
      if j in checked || paths[j].held || !SameNeighbour(paths[i], paths[j]) {
        continue;
      }
      if Beats(bgp, paths[j], paths[best]) {
        best := j;
      }
      checked := checked + {j};
    }
  }

  /** The first loop. */
  method MarkGroups(bgp: Bgp, paths: seq<PathInfo>) returns (checked: set<nat>, chosen: set<nat>)
    ensures Marks(checked, chosen) == MarksAfter(bgp, paths, |paths|)
  {
    hide Members, Group;
    checked, chosen := {}, {};
    for i := 0 to |paths|
      invariant Marks(checked, chosen) == MarksAfter(bgp, paths, i)
    {
      if i in checked || paths[i].held {
        continue;
      }
      var best;
      best, checked := FindGroup(bgp, paths, i, checked);
      checked := checked + {best};
      chosen := chosen + {best};
    }
  }

  lemma {:induction false} MarksFree(bgp: Bgp, paths: seq<PathInfo>, n: nat)
    requires n <= |paths|
    ensures forall x :: x in MarksAfter(bgp, paths, n).checked || x in MarksAfter(bgp, paths, n).chosen ==> Free(paths, x)
  {
    if n > 0 {
      MarksFree(bgp, paths, n - 1);
      var m := MarksAfter(bgp, paths, n - 1);
      BestWithin(bgp, paths, Some(n - 1), Members(paths, n - 1, m.checked), |paths|);
      hide BestOf;
    }
  }

  lemma {:induction false} BestWithin(bgp: Bgp, paths: seq<PathInfo>, start: Option<nat>, members: set<nat>, n: nat)
    requires n <= |paths| && (start.Some? ==> start.value < |paths|)
    ensures var b := BestOf(bgp, paths, start, members, n);
            && (start.Some? ==> b.Some?)
            && (b.Some? ==> b == start || (b.value in members && b.value < n))
            && (b.None? ==> forall x :: x in members ==> x >= n)
  {
    if n > 0 {
      BestWithin(bgp, paths, start, members, n - 1);
    }
  }

  /** The whole selection.  The marks are gone afterwards, as they were before. */
  method DeterministicSelection(bgp: Bgp, paths: seq<PathInfo>)
    returns (best: Option<nat>, checked: set<nat>, chosen: set<nat>)
    ensures best == Select(bgp, paths)
    ensures checked == {} && chosen == {}
  {
    checked, chosen := MarkGroups(bgp, paths);
    MarksFree(bgp, paths, |paths|);
    ghost var all, marked := chosen, checked;
    best := None;
    hide Beats, MarksAfter;
    for i := 0 to |paths|
      invariant best == BestOf(bgp, paths, None, all, i)
      invariant chosen == (set x | x in all && x >= i) && checked == (set x | x in marked && x >= i)
    {
      if paths[i].held {
        assert i !in chosen && i !in checked;
        continue;
      }
      checked := checked - {i};
      if i !in chosen {
        continue;
      }
      chosen := chosen - {i};
      if best.None? || Beats(bgp, paths[i], paths[best.value]) {
        best := Some(i);
      }
    }
  }

  // ----- order among some of the paths ----------------------------------------------

  predicate Within(paths: seq<PathInfo>, s: set<nat>) {
    forall x :: x in s ==> Free(paths, x)
  }

  /** Of any two exactly one beats the other, without circles. */
  predicate OrderedOn(bgp: Bgp, paths: seq<PathInfo>, s: set<nat>)
    requires Within(paths, s)
  {
    && (forall x, y :: x in s && y in s && x != y ==>
          (Beats(bgp, paths[x], paths[y]) <==> !Beats(bgp, paths[y], paths[x])))
    && (forall x, y, z :: x in s && y in s && z in s && x != y && y != z && x != z ==>
          Beats(bgp, paths[x], paths[y]) && Beats(bgp, paths[y], paths[z]) ==> Beats(bgp, paths[x], paths[z]))
  }

  /** `b` is in `s` and beats whatever else of it is below `n`, or is the path started from. */
  predicate Wins(bgp: Bgp, paths: seq<PathInfo>, start: Option<nat>, s: set<nat>, n: nat, b: nat)
    requires Within(paths, s)
  {
    b in s && forall x :: x in s && (x < n || start == Some(x)) && x != b ==> Beats(bgp, paths[b], paths[x])
  }

  lemma {:induction false} BestOfWins(bgp: Bgp, paths: seq<PathInfo>, start: Option<nat>, s: set<nat>, members: set<nat>, n: nat)
    requires n <= |paths| && Within(paths, s) && OrderedOn(bgp, paths, s)
    requires members <= s && (start.Some? ==> start.value in s) && forall x :: x in s ==> x in members || start == Some(x)
    ensures var b := BestOf(bgp, paths, start, members, n); b.Some? ==> Wins(bgp, paths, start, s, n, b.value)
  {
    hide Beats;
    if n > 0 {
      BestOfWins(bgp, paths, start, s, members, n - 1);
      BestWithin(bgp, paths, start, members, n - 1);
    }
  }

  // ----- with MEDs compared, and without --------------------------------------------

  function Always(bgp: Bgp): Bgp {
    bgp.(alwaysCompareMed := true)
  }

  function NoMed(a: PathInfo): PathInfo {
    a.(med := Some(0))
  }

  lemma ComparedBeats(bgp: Bgp, a: PathInfo, b: PathInfo)
    requires MedsCompared(bgp, a, b)
    ensures Beats(bgp, a, b) <==> Beats(Always(bgp), a, b)
  {
    assert PathLength(bgp, a) == PathLength(Always(bgp), a) && PathLength(bgp, b) == PathLength(Always(bgp), b);
    hide PathLength, RouterId, ClusterLength, SockunionCmp;
    assert Preference(bgp, a, b) == Preference(Always(bgp), a, b);
  }

  lemma UncomparedBeats(bgp: Bgp, a: PathInfo, b: PathInfo)
    requires !MedsCompared(bgp, a, b)
    ensures Beats(bgp, a, b) <==> Beats(Always(bgp), NoMed(a), NoMed(b))
  {
    assert PathLength(bgp, a) == PathLength(Always(bgp), NoMed(a)) && PathLength(bgp, b) == PathLength(Always(bgp), NoMed(b));
    assert RouterId(a) == RouterId(NoMed(a)) && RouterId(b) == RouterId(NoMed(b));
    assert ClusterLength(a) == ClusterLength(NoMed(a)) && ClusterLength(b) == ClusterLength(NoMed(b));
    hide PathLength, RouterId, ClusterLength, SockunionCmp, MedsCompared;
    assert MedsCompared(Always(bgp), NoMed(a), NoMed(b)) by { AlwaysCompared(bgp, NoMed(a), NoMed(b)); }
    assert Preference(bgp, a, b) == Preference(Always(bgp), NoMed(a), NoMed(b));
  }

  lemma AlwaysCompared(bgp: Bgp, a: PathInfo, b: PathInfo)
    ensures MedsCompared(Always(bgp), a, b)
  {
  }

  lemma MedsSymmetric(bgp: Bgp, a: PathInfo, b: PathInfo)
    ensures MedsCompared(bgp, a, b) <==> MedsCompared(bgp, b, a)
    ensures SameNeighbour(a, b) <==> SameNeighbour(b, a)
  {
  }

  /** Paths of which either all pairs have their MEDs compared, or none. */
  predicate Uniform(bgp: Bgp, a: PathInfo, b: PathInfo, compared: bool) {
    SideBySide(a, b) && (MedsCompared(bgp, a, b) <==> compared)
  }

  lemma TwoOrdered(bgp: Bgp, a: PathInfo, b: PathInfo, compared: bool)
    requires Uniform(bgp, a, b, compared)
    ensures Beats(bgp, a, b) <==> !Beats(bgp, b, a)
  {
    hide Beats, MedsCompared, Learned;
    MedsSymmetric(bgp, a, b);
    if compared {
      ComparedBeats(bgp, a, b);
      ComparedBeats(bgp, b, a);
      OrderAntisymmetric(Always(bgp), a, b);
    } else {
      UncomparedBeats(bgp, a, b);
      UncomparedBeats(bgp, b, a);
      StillSideBySide(a, b);
      OrderAntisymmetric(Always(bgp), NoMed(a), NoMed(b));
    }
  }

  lemma StillSideBySide(a: PathInfo, b: PathInfo)
    requires SideBySide(a, b)
    ensures SideBySide(NoMed(a), NoMed(b))
  {
  }

  lemma ThreeOrdered(bgp: Bgp, a: PathInfo, b: PathInfo, c: PathInfo, compared: bool)
    requires Uniform(bgp, a, b, compared) && Uniform(bgp, b, c, compared) && Uniform(bgp, a, c, compared)
    ensures Beats(bgp, a, b) && Beats(bgp, b, c) ==> Beats(bgp, a, c)
  {
    hide Beats, MedsCompared, Learned;
    if compared {
      ComparedBeats(bgp, a, b);
      ComparedBeats(bgp, b, c);
      ComparedBeats(bgp, a, c);
      DecisionIsTotalOrder(Always(bgp), a, b, c);
    } else {
      UncomparedBeats(bgp, a, b);
      UncomparedBeats(bgp, b, c);
      UncomparedBeats(bgp, a, c);
      StillSideBySide(a, b);
      StillSideBySide(b, c);
      StillSideBySide(a, c);
      DecisionIsTotalOrder(Always(bgp), NoMed(a), NoMed(b), NoMed(c));
    }
  }

  lemma UniformOrdered(bgp: Bgp, paths: seq<PathInfo>, s: set<nat>, compared: bool)
    requires Within(paths, s)
    requires forall x, y :: x in s && y in s && x != y ==> Uniform(bgp, paths[x], paths[y], compared)
    ensures OrderedOn(bgp, paths, s)
  {
    hide Beats, Uniform;
    forall x, y | x in s && y in s && x != y
      ensures Beats(bgp, paths[x], paths[y]) <==> !Beats(bgp, paths[y], paths[x])
    {
      TwoOrdered(bgp, paths[x], paths[y], compared);
    }
    forall x, y, z | x in s && y in s && z in s && x != y && y != z && x != z
      ensures Beats(bgp, paths[x], paths[y]) && Beats(bgp, paths[y], paths[z]) ==> Beats(bgp, paths[x], paths[z])
    {
      ThreeOrdered(bgp, paths[x], paths[y], paths[z], compared);
    }
  }

  // ----- the winner of each group ---------------------------------------------------

  /** Paths that can stand side by side, where exactly those of one neighbouring AS have their MEDs
      compared, and being of one neighbouring AS carries over. */
  ghost predicate Grouped(bgp: Bgp, paths: seq<PathInfo>) {
    && (forall i, j :: Free(paths, i) && Free(paths, j) && i != j ==>
          Uniform(bgp, paths[i], paths[j], SameNeighbour(paths[i], paths[j])))
    && (forall i, j, k :: Free(paths, i) && Free(paths, j) && Free(paths, k) && i != j && j != k && i != k ==>
          SameNeighbour(paths[i], paths[j]) && SameNeighbour(paths[j], paths[k]) ==> SameNeighbour(paths[i], paths[k]))
  }

  /** A path that beats all others of its neighbouring AS. */
  ghost predicate Champion(bgp: Bgp, paths: seq<PathInfo>, x: int) {
    && Free(paths, x)
    && forall y :: Free(paths, y) && y != x && SameNeighbour(paths[x], paths[y]) ==> Beats(bgp, paths[x], paths[y])
  }

  /** Some path of the same group comes before `n`. */
  ghost predicate Seen(paths: seq<PathInfo>, x: int, n: nat)
    requires Free(paths, x)
  {
    exists y :: Free(paths, y) && y < n && (y == x || SameNeighbour(paths[y], paths[x]))
  }

  predicate Related(paths: seq<PathInfo>, x: int, y: int)
    requires Free(paths, x) && Free(paths, y)
  {
    x == y || SameNeighbour(paths[x], paths[y])
  }

  lemma RelatedTwo(bgp: Bgp, paths: seq<PathInfo>, x: int, y: int, z: int)
    requires Grouped(bgp, paths) && Free(paths, x) && Free(paths, y) && Free(paths, z)
    requires Related(paths, x, y) && Related(paths, y, z)
    ensures Related(paths, x, z) && Related(paths, y, x)
  {
    MedsSymmetric(bgp, paths[x], paths[y]);
    hide SameNeighbour, Uniform;
  }

  lemma SeenStep(paths: seq<PathInfo>, x: int, i: nat)
    requires Free(paths, x) && i < |paths|
    ensures Seen(paths, x, i + 1) <==> Seen(paths, x, i) || (Free(paths, i) && Related(paths, i, x))
  {
    hide SameNeighbour;
    if Seen(paths, x, i + 1) {
      var y :| Free(paths, y) && y < i + 1 && (y == x || SameNeighbour(paths[y], paths[x]));
      assert y < i ==> Seen(paths, x, i);
    }
    if Seen(paths, x, i) {
      var y :| Free(paths, y) && y < i && (y == x || SameNeighbour(paths[y], paths[x]));
      assert y < i + 1;
    }
    assert Free(paths, i) && Related(paths, i, x) ==> Seen(paths, x, i + 1);
  }

  /** A path related to one that was seen is seen. */
  lemma SeenRelated(bgp: Bgp, paths: seq<PathInfo>, x: int, z: int, i: nat)
    requires Grouped(bgp, paths) && Free(paths, x) && Free(paths, z) && Seen(paths, x, i) && Related(paths, x, z)
    ensures Seen(paths, z, i)
  {
    hide SameNeighbour, Grouped;
    var y :| Free(paths, y) && y < i && (y == x || SameNeighbour(paths[y], paths[x]));
    RelatedTwo(bgp, paths, y, x, z);
  }

  /** What the marks say after the paths below `n`. */
  ghost predicate MarksExact(bgp: Bgp, paths: seq<PathInfo>, n: nat, m: Marks) {
    && (forall x :: Free(paths, x) && x >= n ==> (x in m.checked <==> Seen(paths, x, n)))
    && (forall x: nat :: x in m.chosen <==> Champion(bgp, paths, x) && Seen(paths, x, n))
  }

  /** The first of its group finds all others of it. */
  lemma WholeGroup(bgp: Bgp, paths: seq<PathInfo>, i: nat, m: Marks)
    requires Grouped(bgp, paths) && Free(paths, i) && MarksExact(bgp, paths, i, m) && i !in m.checked
    ensures forall j: nat :: j in Members(paths, i, m.checked) <==> Free(paths, j) && j != i && Related(paths, i, j)
  {
    hide SameNeighbour, Grouped, Champion;
    assert !Seen(paths, i, i);
    forall j: nat | Free(paths, j) && j != i && Related(paths, i, j) ensures j in Members(paths, i, m.checked) {
      RelatedTwo(bgp, paths, i, j, j);
      assert j > i;
      if j in m.checked {
        SeenRelated(bgp, paths, j, i, i);
      }
    }
  }

  /** It also finds the champion. */
  lemma GroupChampion(bgp: Bgp, paths: seq<PathInfo>, i: nat, m: Marks)
    requires Grouped(bgp, paths) && Free(paths, i) && MarksExact(bgp, paths, i, m) && i !in m.checked
    ensures var b := Group(bgp, paths, i, m.checked);
            Free(paths, b) && Related(paths, i, b) && Champion(bgp, paths, b)
  {
    var g := Members(paths, i, m.checked);
    var s := g + {i};
    WholeGroup(bgp, paths, i, m);
    hide SameNeighbour, Beats, Members, MarksExact, BestOf;
    forall x, y | x in s && y in s && x != y ensures Uniform(bgp, paths[x], paths[y], true) {
      RelatedTwo(bgp, paths, i, x, x);
      RelatedTwo(bgp, paths, x, i, y);
    }
    hide Uniform;
    UniformOrdered(bgp, paths, s, true);
    BestWithin(bgp, paths, Some(i), g, |paths|);
    BestOfWins(bgp, paths, Some(i), s, g, |paths|);
    var b := Group(bgp, paths, i, m.checked);
    forall y | Free(paths, y) && y != b && SameNeighbour(paths[b], paths[y]) ensures Beats(bgp, paths[b], paths[y]) {
      RelatedTwo(bgp, paths, i, b, y);
      assert y in s;
    }
  }

  lemma OneChampion(bgp: Bgp, paths: seq<PathInfo>, x: int, y: int)
    requires Grouped(bgp, paths) && Champion(bgp, paths, x) && Champion(bgp, paths, y) && x != y
    ensures !Related(paths, x, y)
  {
    hide SameNeighbour, Beats;
    assert Uniform(bgp, paths[x], paths[y], SameNeighbour(paths[x], paths[y]));
    MedsSymmetric(bgp, paths[x], paths[y]);
    TwoOrdered(bgp, paths[x], paths[y], SameNeighbour(paths[x], paths[y]));
  }

  /** No other champion is related to the first of its group. */
  lemma OnlyChampion(bgp: Bgp, paths: seq<PathInfo>, i: nat, b: nat)
    requires Grouped(bgp, paths) && Free(paths, i) && Free(paths, b) && Related(paths, i, b) && Champion(bgp, paths, b)
    ensures forall x :: Champion(bgp, paths, x) && Related(paths, i, x) ==> x == b
  {
    hide SameNeighbour, Grouped;
    forall x | Champion(bgp, paths, x) && Related(paths, i, x) ensures x == b {
      RelatedTwo(bgp, paths, i, x, x);
      RelatedTwo(bgp, paths, x, i, b);
      if x != b {
        OneChampion(bgp, paths, x, b);
      }
    }
  }

  lemma AllSeenStep(paths: seq<PathInfo>, i: nat)
    requires Free(paths, i)
    ensures forall x :: Free(paths, x) ==> (Seen(paths, x, i + 1) <==> Seen(paths, x, i) || Related(paths, i, x))
  {
    hide SameNeighbour, Seen, Related;
    forall x | Free(paths, x) ensures Seen(paths, x, i + 1) <==> Seen(paths, x, i) || Related(paths, i, x) {
      SeenStep(paths, x, i);
    }
  }

  lemma ExactStep(bgp: Bgp, paths: seq<PathInfo>, i: nat, m: Marks)
    requires Grouped(bgp, paths) && Free(paths, i) && MarksExact(bgp, paths, i, m) && i !in m.checked
    ensures var b := Group(bgp, paths, i, m.checked);
            MarksExact(bgp, paths, i + 1, Marks(m.checked + Members(paths, i, m.checked) + {b}, m.chosen + {b}))
  {
    hide Related, Champion, Members, Group, Seen, Grouped;
    GroupChampion(bgp, paths, i, m);
    WholeGroup(bgp, paths, i, m);
    AllSeenStep(paths, i);
    OnlyChampion(bgp, paths, i, Group(bgp, paths, i, m.checked));
    ChampionsFree(bgp, paths);
  }

  lemma ChampionsFree(bgp: Bgp, paths: seq<PathInfo>)
    ensures forall x :: Champion(bgp, paths, x) ==> Free(paths, x)
  {
  }

  lemma PassedStep(bgp: Bgp, paths: seq<PathInfo>, i: nat, m: Marks)
    requires Grouped(bgp, paths) && i < |paths| && MarksExact(bgp, paths, i, m) && (i in m.checked || paths[i].held)
    ensures MarksExact(bgp, paths, i + 1, m)
  {
    hide SameNeighbour, Champion, Seen, Grouped;
    forall x | Free(paths, x) ensures Seen(paths, x, i + 1) <==> Seen(paths, x, i) {
      SeenStep(paths, x, i);
      if Free(paths, i) && Related(paths, i, x) {
        SeenRelated(bgp, paths, i, x, i);
      }
    }
    ChampionsFree(bgp, paths);
  }

  lemma NoneSeen(bgp: Bgp, paths: seq<PathInfo>)
    ensures MarksExact(bgp, paths, 0, Marks({}, {}))
  {
    hide Champion, SameNeighbour;
    ChampionsFree(bgp, paths);
  }

  /** The marks are on the champions. */
  lemma {:induction false} ChosenAreChampions(bgp: Bgp, paths: seq<PathInfo>, n: nat)
    requires Grouped(bgp, paths) && n <= |paths|
    ensures MarksExact(bgp, paths, n, MarksAfter(bgp, paths, n))
  {
    hide MarksExact, Grouped, Members, Group;
    if n == 0 {
      NoneSeen(bgp, paths);
    } else {
      ChosenAreChampions(bgp, paths, n - 1);
      var m := MarksAfter(bgp, paths, n - 1);
      if n - 1 in m.checked || paths[n - 1].held {
        PassedStep(bgp, paths, n - 1, m);
      } else {
        ExactStep(bgp, paths, n - 1, m);
      }
    }
  }

  // ----- the winner -----------------------------------------------------------------

  /** A champion that beats all other champions. */
  ghost predicate Winner(bgp: Bgp, paths: seq<PathInfo>, w: int) {
    && Champion(bgp, paths, w)
    && forall c :: Champion(bgp, paths, c) && c != w ==> Beats(bgp, paths[w], paths[c])
  }

  lemma ChosenIs(bgp: Bgp, paths: seq<PathInfo>)
    requires Grouped(bgp, paths)
    ensures forall x: nat :: x in MarksAfter(bgp, paths, |paths|).chosen <==> Champion(bgp, paths, x)
  {
    hide MarksAfter, Champion, SameNeighbour, Grouped;
    ChosenAreChampions(bgp, paths, |paths|);
    ChampionsFree(bgp, paths);
    forall x: nat | Champion(bgp, paths, x) ensures Seen(paths, x, |paths|) {
      assert Free(paths, x);
    }
  }

  /** Main result: deterministic MED selects the champion that beats all other champions, and nothing
      only if nothing is usable. */
  lemma SelectsWinner(bgp: Bgp, paths: seq<PathInfo>)
    requires Grouped(bgp, paths)
    ensures Select(bgp, paths).Some? ==> Winner(bgp, paths, Select(bgp, paths).value)
    ensures Select(bgp, paths).None? ==> forall i :: !Free(paths, i)
  {
    var s := MarksAfter(bgp, paths, |paths|).chosen;
    ChosenIs(bgp, paths);
    ChampionsFree(bgp, paths);
    hide MarksAfter, SameNeighbour, Beats, BestOf;
    forall x, y | x in s && y in s && x != y ensures Uniform(bgp, paths[x], paths[y], false) {
      OneChampion(bgp, paths, x, y);
    }
    hide Champion, Uniform;
    UniformOrdered(bgp, paths, s, false);
    BestWithin(bgp, paths, None, s, |paths|);
    BestOfWins(bgp, paths, None, s, s, |paths|);
    if Select(bgp, paths).None? {
      forall i | Free(paths, i) ensures false {
        SomeChampion(bgp, paths, i);
      }
    }
  }

  /** Where there is a usable path, some group is gone through. */
  lemma SomeChampion(bgp: Bgp, paths: seq<PathInfo>, i: int)
    requires Grouped(bgp, paths) && Free(paths, i)
    ensures exists x: nat :: x in MarksAfter(bgp, paths, |paths|).chosen
  {
    var k := FirstFree(paths, i);
    NothingBefore(bgp, paths, k);
    ChosenGrow(bgp, paths, k + 1, |paths|);
  }

  lemma {:induction false} FirstFree(paths: seq<PathInfo>, i: int) returns (k: nat)
    requires Free(paths, i)
    ensures Free(paths, k) && forall j :: 0 <= j < k ==> !Free(paths, j)
    decreases i
  {
    if j :| 0 <= j < i && Free(paths, j) {
      k := FirstFree(paths, j);
    } else {
      k := i;
    }
  }

  lemma {:induction false} NothingBefore(bgp: Bgp, paths: seq<PathInfo>, k: nat)
    requires k <= |paths| && forall j :: 0 <= j < k ==> !Free(paths, j)
    ensures MarksAfter(bgp, paths, k) == Marks({}, {})
  {
    if k > 0 {
      NothingBefore(bgp, paths, k - 1);
      assert !Free(paths, k - 1);
      hide Group, Members;
    }
  }

  lemma {:induction false} ChosenGrow(bgp: Bgp, paths: seq<PathInfo>, k: nat, n: nat)
    requires k <= n <= |paths|
    ensures MarksAfter(bgp, paths, k).chosen <= MarksAfter(bgp, paths, n).chosen
  {
    if k < n {
      ChosenGrow(bgp, paths, k, n - 1);
      hide Group, Members;
    }
  }

  // ----- the order of arrival -------------------------------------------------------

  lemma Elsewhere(p: seq<PathInfo>, q: seq<PathInfo>, x: int) returns (y: nat)
    requires multiset(p) == multiset(q) && Free(p, x)
    ensures Free(q, y) && q[y] == p[x]
  {
    assert p[x] in multiset(q);
    y :| y < |q| && q[y] == p[x];
  }

  lemma ChampionElsewhere(bgp: Bgp, p: seq<PathInfo>, q: seq<PathInfo>, x: int, y: int)
    requires multiset(p) == multiset(q) && Champion(bgp, p, x) && Free(q, y) && q[y] == p[x] && Grouped(bgp, q)
    ensures Champion(bgp, q, y)
  {
    hide SameNeighbour, Beats;
    forall z | Free(q, z) && z != y && SameNeighbour(q[y], q[z]) ensures Beats(bgp, q[y], q[z]) {
      var v := Elsewhere(q, p, z);
      assert Uniform(bgp, q[y], q[z], SameNeighbour(q[y], q[z]));
      assert q[y] != q[z];
    }
  }

  /** Whatever order the paths arrived in, the same path is selected. */
  lemma SelectionIgnoresArrival(bgp: Bgp, p: seq<PathInfo>, q: seq<PathInfo>)
    requires Grouped(bgp, p) && Grouped(bgp, q) && multiset(p) == multiset(q)
    ensures Select(bgp, p).Some? <==> Select(bgp, q).Some?
    ensures Select(bgp, p).Some? ==> p[Select(bgp, p).value] == q[Select(bgp, q).value]
  {
    hide Select, Grouped;
    SelectsWinner(bgp, p);
    SelectsWinner(bgp, q);
    hide Champion;
    ChampionsFree(bgp, p);
    ChampionsFree(bgp, q);
    if Select(bgp, p).Some? {
      var v := Elsewhere(p, q, Select(bgp, p).value);
      SameWinner(bgp, p, q, v);
    } else if Select(bgp, q).Some? {
      var v := Elsewhere(q, p, Select(bgp, q).value);
    }
  }

  lemma SameWinner(bgp: Bgp, p: seq<PathInfo>, q: seq<PathInfo>, v: nat)
    requires Grouped(bgp, p) && Grouped(bgp, q) && multiset(p) == multiset(q)
    requires Select(bgp, p).Some? && Winner(bgp, p, Select(bgp, p).value)
    requires Select(bgp, q).Some? ==> Winner(bgp, q, Select(bgp, q).value)
    requires Select(bgp, q).None? ==> forall i :: !Free(q, i)
    requires Free(q, v) && q[v] == p[Select(bgp, p).value]
    ensures Select(bgp, q) == Some(v)
  {
    hide Select, Champion;
    var w, w' := Select(bgp, p).value, Select(bgp, q).value;
    ChampionsFree(bgp, q);
    ChampionElsewhere(bgp, p, q, w, v);
    if w' != v {
      var u := Elsewhere(q, p, w');
      ChampionElsewhere(bgp, q, p, w', u);
      OneChampion(bgp, q, v, w');
      assert Uniform(bgp, q[v], q[w'], SameNeighbour(q[v], q[w']));
      TwoOrdered(bgp, q[v], q[w'], SameNeighbour(q[v], q[w']));
    }
  }

  /** Ordinary paths are grouped: those that begin with the AS number of the neighbour. */
  lemma ExternalGrouped(bgp: Bgp, paths: seq<PathInfo>)
    requires !bgp.alwaysCompareMed
    requires forall i, j :: Free(paths, i) && Free(paths, j) && i != j ==> SideBySide(paths[i], paths[j])
    requires forall i :: Free(paths, i) ==> BeginsWithNeighbour(paths[i].aspath)
    ensures Grouped(bgp, paths)
  {
    hide Learned, BeginsWithNeighbour, MedsCompared, SameNeighbour;
    forall i, j | Free(paths, i) && Free(paths, j)
      ensures SameNeighbour(paths[i], paths[j]) <==> NeighbourAs(paths[i].aspath) == NeighbourAs(paths[j].aspath)
      ensures MedsCompared(bgp, paths[i], paths[j]) <==> SameNeighbour(paths[i], paths[j])
    {
      ExternalPair(bgp, paths[i], paths[j]);
    }
  }

  predicate BeginsWithNeighbour(p: Path) {
    p != [] && p[0].kind.AsSequence? && p[0].asns != []
  }

  function NeighbourAs(p: Path): Asn {
    if BeginsWithNeighbour(p) then p[0].asns[0] else 0
  }

  lemma ExternalPair(bgp: Bgp, a: PathInfo, b: PathInfo)
    requires !bgp.alwaysCompareMed && BeginsWithNeighbour(a.aspath) && BeginsWithNeighbour(b.aspath)
    ensures SameNeighbour(a, b) <==> NeighbourAs(a.aspath) == NeighbourAs(b.aspath)
    ensures MedsCompared(bgp, a, b) <==> SameNeighbour(a, b)
  {
    assert CountHops(a.aspath) > 0 && CountHops(b.aspath) > 0;
  }

  // ----- where MEDs are compared anyway ---------------------------------------------

  /** A path that beats all others. */
  ghost predicate Best(bgp: Bgp, paths: seq<PathInfo>, b: int) {
    Free(paths, b) && forall x :: Free(paths, x) && x != b ==> Beats(bgp, paths[b], paths[x])
  }

  lemma AllOrdered(bgp: Bgp, paths: seq<PathInfo>, s: set<nat>)
    requires bgp.alwaysCompareMed && Within(paths, s)
    requires forall i, j :: Free(paths, i) && Free(paths, j) && i != j ==> SideBySide(paths[i], paths[j])
    ensures OrderedOn(bgp, paths, s)
  {
    hide SideBySide, OrderedOn;
    UniformOrdered(bgp, paths, s, true);
  }

  /** The best path wins wherever it takes part. */
  lemma BestWinsThere(bgp: Bgp, paths: seq<PathInfo>, start: Option<nat>, s: set<nat>, members: set<nat>, b: nat)
    requires Within(paths, s) && OrderedOn(bgp, paths, s) && Best(bgp, paths, b) && b in s
    requires members <= s && (start.Some? ==> start.value in s) && forall x :: x in s ==> x in members || start == Some(x)
    ensures BestOf(bgp, paths, start, members, |paths|) == Some(b)
  {
    hide Beats, BestOf;
    BestWithin(bgp, paths, start, members, |paths|);
    BestOfWins(bgp, paths, start, s, members, |paths|);
  }

  lemma {:induction false} BestIsChosen(bgp: Bgp, paths: seq<PathInfo>, b: nat, n: nat)
    requires bgp.alwaysCompareMed && n <= |paths| && Best(bgp, paths, b)
    requires forall i, j :: Free(paths, i) && Free(paths, j) && i != j ==> SideBySide(paths[i], paths[j])
    ensures var m := MarksAfter(bgp, paths, n); b in m.chosen || (b >= n && b !in m.checked)
  {
    hide Beats, SideBySide, SameNeighbour, BestOf;
    if n > 0 {
      var m, i := MarksAfter(bgp, paths, n - 1), n - 1;
      BestIsChosen(bgp, paths, b, n - 1);
      var g := Members(paths, i, m.checked);
      BestWithin(bgp, paths, Some(i), g, |paths|);
      if i !in m.checked && !paths[i].held && (b == i || b in g) {
        AllOrdered(bgp, paths, g + {i});
        BestWinsThere(bgp, paths, Some(i), g + {i}, g, b);
      }
    }
  }

  /** With always-compare-med, deterministic MED changes nothing: the path that beats all others is
      selected, however paths fall into groups. */
  lemma SelectsBest(bgp: Bgp, paths: seq<PathInfo>, i: nat)
    requires bgp.alwaysCompareMed && Free(paths, i)
    requires forall i, j :: Free(paths, i) && Free(paths, j) && i != j ==> SideBySide(paths[i], paths[j])
    ensures Select(bgp, paths).Some? && Best(bgp, paths, Select(bgp, paths).value)
  {
    hide Beats, SideBySide, BestOf, MarksAfter;
    var all := set x: nat | x < |paths| && !paths[x].held;
    AllOrdered(bgp, paths, all);
    BestWithin(bgp, paths, None, all, |paths|);
    BestOfWins(bgp, paths, None, all, all, |paths|);
    assert i in all;
    var b := BestOf(bgp, paths, None, all, |paths|).value;
    BestIsChosen(bgp, paths, b, |paths|);
    MarksFree(bgp, paths, |paths|);
    var s := MarksAfter(bgp, paths, |paths|).chosen;
    AllOrdered(bgp, paths, s);
    BestWinsThere(bgp, paths, None, s, s, b);
  }

  // ----- outside that scope ---------------------------------------------------------

  function Confederate(confed: Asn, asn: Asn, med: nat, igpMetric: nat, ip: nat): PathInfo {
    PathInfo(0, None, true, [Segment(AsConfedSequence, [confed]), Segment(AsSequence, [asn])], 0, Some(med),
             PeerSort.Confed, 1, igpMetric, false, false, None, ip, None, Inet(ip))
  }

  /** With confederations, being put together need not carry over, and then the path selected depends
      on the order of arrival even with deterministic MED: the first and the second share the
      confederation member they come from, the second and the third the neighbouring AS. */
  lemma ArrivalMatters(bgp: Bgp) returns (a: PathInfo, b: PathInfo, c: PathInfo)
    requires !bgp.alwaysCompareMed
    ensures AllSideBySide([a, b, c]) && multiset([a, b, c]) == multiset([c, a, b])
    ensures Select(bgp, [a, b, c]) == Some(2) && Select(bgp, [c, a, b]) == Some(1)
  {
    a, b, c := Confederate(1, 5, 10, 3, 1), Confederate(1, 6, 20, 2, 2), Confederate(2, 6, 30, 1, 3);
    ConfedCircle(bgp, a, b, c);
    hide Beats, Confederate, SameNeighbour;
    SelectLast(bgp, a, b, c);
    SelectSecond(bgp, c, a, b);
    assert multiset([a, b, c]) == multiset{a, b, c} == multiset([c, a, b]);
  }

  lemma ConfedCircle(bgp: Bgp, a: PathInfo, b: PathInfo, c: PathInfo)
    requires !bgp.alwaysCompareMed
    requires a == Confederate(1, 5, 10, 3, 1) && b == Confederate(1, 6, 20, 2, 2) && c == Confederate(2, 6, 30, 1, 3)
    ensures AllSideBySide([a, b, c]) && !a.held && !b.held && !c.held
    ensures SameNeighbour(a, b) && SameNeighbour(b, c) && SameNeighbour(c, b) && !SameNeighbour(a, c) && !SameNeighbour(c, a)
    ensures Beats(bgp, a, b) && !Beats(bgp, b, a) && Beats(bgp, b, c) && Beats(bgp, c, a)
  {
    ConfedCounts(a.aspath, 1, 5);
    ConfedCounts(b.aspath, 1, 6);
    ConfedCounts(c.aspath, 2, 6);
    hide CountHops, CountConfeds, SkipConfeds;
  }

  lemma ConfedCounts(p: Path, confed: Asn, asn: Asn)
    requires p == [Segment(AsConfedSequence, [confed]), Segment(AsSequence, [asn])]
    ensures CountHops(p) == 1 && CountConfeds(p) == 1 && SkipConfeds(p) == [Segment(AsSequence, [asn])]
  {
    assert p[1..] == [Segment(AsSequence, [asn])] && p[1..][1..] == [];
    assert CountHops(p[1..]) == 1 && CountConfeds(p[1..]) == 0;
  }

  /** The first two are put together and the third beats the better of them. */
  lemma SelectLast(bgp: Bgp, a: PathInfo, b: PathInfo, c: PathInfo)
    requires !a.held && !b.held && !c.held && SameNeighbour(a, b) && !SameNeighbour(a, c)
    requires !Beats(bgp, b, a) && Beats(bgp, c, a)
    ensures Select(bgp, [a, b, c]) == Some(2)
  {
    hide Beats, SameNeighbour;
    var p := [a, b, c];
    assert Members(p, 0, {}) == {1};
    ThreeRounds(bgp, p, Some(0), {1});
    assert Group(bgp, p, 0, {}) == 0;
    assert MarksAfter(bgp, p, 1) == Marks({0, 1}, {0});
    assert MarksAfter(bgp, p, 2) == Marks({0, 1}, {0});
    assert Members(p, 2, {0, 1}) == {};
    ThreeRounds(bgp, p, Some(2), {});
    assert Group(bgp, p, 2, {0, 1}) == 2;
    assert MarksAfter(bgp, p, 3) == Marks({0, 1, 2}, {0, 2});
    ThreeRounds(bgp, p, None, {0, 2});
  }

  /** The first and the last are put together, the last is better, and the second beats it. */
  lemma SelectSecond(bgp: Bgp, c: PathInfo, a: PathInfo, b: PathInfo)
    requires !a.held && !b.held && !c.held && SameNeighbour(c, b) && !SameNeighbour(c, a)
    requires Beats(bgp, b, c) && !Beats(bgp, b, a)
    ensures Select(bgp, [c, a, b]) == Some(1)
  {
    hide Beats, SameNeighbour;
    var p := [c, a, b];
    assert Members(p, 0, {}) == {2};
    ThreeRounds(bgp, p, Some(0), {2});
    assert Group(bgp, p, 0, {}) == 2;
    assert MarksAfter(bgp, p, 1) == Marks({2}, {2});
    assert Members(p, 1, {2}) == {};
    ThreeRounds(bgp, p, Some(1), {});
    assert Group(bgp, p, 1, {2}) == 1;
    assert MarksAfter(bgp, p, 2) == Marks({1, 2}, {1, 2});
    assert MarksAfter(bgp, p, 3) == Marks({1, 2}, {1, 2});
    ThreeRounds(bgp, p, None, {1, 2});
  }

  lemma ThreeRounds(bgp: Bgp, p: seq<PathInfo>, start: Option<nat>, members: set<nat>)
    requires |p| == 3 && (start.Some? ==> start.value < 3)
    ensures var x := if 0 in members && (start.None? || Beats(bgp, p[0], p[start.value])) then Some(0) else start;
            var y := if 1 in members && (x.None? || Beats(bgp, p[1], p[x.value])) then Some(1) else x;
            BestOf(bgp, p, start, members, 3) == if 2 in members && (y.None? || Beats(bgp, p[2], p[y.value])) then Some(2) else y
  {
    hide Beats;
    assert BestOf(bgp, p, start, members, 1)
        == if 0 in members && (start.None? || Beats(bgp, p[0], p[start.value])) then Some(0) else start;
  }
}
