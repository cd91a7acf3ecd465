/** The scan that picks the best path of a prefix, and with it the candidates for multipath
    (bgp_best_selection in bgpd/bgp_route.c). */
module BestPath {
  import opened Wrappers
  import opened BgpPeers
  import opened AsPath
  import opened Decision

  /** The best path so far and the candidates for multipath, as positions in the list. */
  datatype Selection = Selection(best: Option<nat>, candidates: seq<nat>)

  /** One round of the scan: the path at `i` against the best so far. */
  function Round(bgp: Bgp, paths: seq<PathInfo>, s: Selection, i: nat): Selection
    requires i < |paths| && (s.best.Some? ==> s.best.value < |paths|)
  {
    var (better, equal) := InfoCmp(bgp, Some(paths[i]), if s.best.Some? then Some(paths[s.best.value]) else None);
    Selection(if better then Some(i) else s.best,
              (if better && !equal then [i] else s.candidates) + if equal then [i] else [])
  }

  function Scan(bgp: Bgp, paths: seq<PathInfo>, n: nat): (s: Selection)
    requires n <= |paths|
    ensures s.best.Some? ==> s.best.value < n
  {
    if n == 0 then Selection(None, []) else Round(bgp, paths, Scan(bgp, paths, n - 1), n - 1)
  }

  /** The paths that are not held down. */
  function Usable(paths: seq<PathInfo>): seq<PathInfo> {
    if paths == [] then []
    else
      var n := |paths| - 1;
      Usable(paths[..n]) + if paths[n].held then [] else [paths[n]]
  }

  lemma UsableStep(paths: seq<PathInfo>, i: nat)
    requires i < |paths|
    ensures Usable(paths[..i + 1]) == Usable(paths[..i]) + if paths[i].held then [] else [paths[i]]
  {
    assert paths[..i + 1][..i] == paths[..i];
  }

  lemma {:induction false} ScanPrefix(bgp: Bgp, paths: seq<PathInfo>, more: seq<PathInfo>, n: nat)
    requires n <= |paths|
    ensures Scan(bgp, paths + more, n) == Scan(bgp, paths, n)
  {
    hide InfoCmp;
    if n > 0 {
      ScanPrefix(bgp, paths, more, n - 1);
      assert (paths + more)[n - 1] == paths[n - 1];
      var s := Scan(bgp, paths, n - 1);
      assert s.best.Some? ==> (paths + more)[s.best.value] == paths[s.best.value];
    }
  }

  lemma ScanMore(bgp: Bgp, usable: seq<PathInfo>, x: PathInfo)
    ensures var n, s := |usable|, Scan(bgp, usable, |usable|);
            var (better, equal) := InfoCmp(bgp, Some(x), if s.best.Some? then Some(usable[s.best.value]) else None);
            Scan(bgp, usable + [x], n + 1)
              == Selection(if better then Some(n) else s.best,
                           (if better && !equal then [n] else s.candidates) + if equal then [n] else [])
  {
    hide InfoCmp;
    var n := |usable|;
    ScanPrefix(bgp, usable, [x], n);
    ScanRound(bgp, usable + [x], n + 1);
    hide Scan;
    assert (usable + [x])[n] == x;
  }

  lemma ScanRound(bgp: Bgp, paths: seq<PathInfo>, n: nat)
    requires 0 < n <= |paths|
    ensures Scan(bgp, paths, n) == Round(bgp, paths, Scan(bgp, paths, n - 1), n - 1)
  {
    hide Round;
  }

  lemma NoneScanned(bgp: Bgp, paths: seq<PathInfo>)
    ensures Scan(bgp, [], 0) == Selection(None, []) && Usable(paths[..0]) == []
  {
  }

  /** The last loop of bgp_best_selection, over all paths of a prefix, without deterministic MED: the
      scan of the usable ones.  The results are positions among these. */
  method BestSelection(bgp: Bgp, paths: seq<PathInfo>, multipath: bool)
    returns (best: Option<nat>, candidates: seq<nat>, usable: seq<PathInfo>)
    ensures usable == Usable(paths)
    ensures best == Scan(bgp, usable, |usable|).best
    ensures candidates == if multipath then Scan(bgp, usable, |usable|).candidates else []
  {
    hide InfoCmp, Scan, Usable;
    best, candidates, usable := None, [], [];
    NoneScanned(bgp, paths);
    for i := 0 to |paths|
      invariant usable == Usable(paths[..i])
      invariant best == Scan(bgp, usable, |usable|).best
      invariant candidates == if multipath then Scan(bgp, usable, |usable|).candidates else []
    {
      UsableStep(paths, i);
      if paths[i].held {
        continue;
      }
      var n := |usable|;
      ScanMore(bgp, usable, paths[i]);
      var (better, equal) := InfoCmp(bgp, Some(paths[i]), if best.Some? then Some(usable[best.value]) else None);
      usable := usable + [paths[i]];
      if better {
        best := Some(n);
        if multipath && !equal {
          candidates := [n];
        }
      }
      if multipath && equal {
        candidates := candidates + [n];
      }
    }
    assert paths[..|paths|] == paths;
  }

  predicate AllSideBySide(paths: seq<PathInfo>) {
    && (forall i :: 0 <= i < |paths| ==> Learned(paths[i]))
    && (forall i, j :: 0 <= i < |paths| && 0 <= j < |paths| && i != j ==> SideBySide(paths[i], paths[j]))
  }

  /** Of any two paths exactly one beats the other, without circles. */
  predicate Ordered(bgp: Bgp, paths: seq<PathInfo>) {
    && (forall i, j :: 0 <= i < |paths| && 0 <= j < |paths| && i != j ==>
          (Beats(bgp, paths[i], paths[j]) <==> !Beats(bgp, paths[j], paths[i])))
    && (forall i, j, k :: 0 <= i < |paths| && 0 <= j < |paths| && 0 <= k < |paths| && i != j && j != k && i != k ==>
          Beats(bgp, paths[i], paths[j]) && Beats(bgp, paths[j], paths[k]) ==> Beats(bgp, paths[i], paths[k]))
  }

  lemma ComparedIsOrdered(bgp: Bgp, paths: seq<PathInfo>)
    requires bgp.alwaysCompareMed && AllSideBySide(paths)
    ensures Ordered(bgp, paths)
  {
    hide Beats, Learned;
    forall i, j | 0 <= i < |paths| && 0 <= j < |paths| && i != j
      ensures Beats(bgp, paths[i], paths[j]) <==> !Beats(bgp, paths[j], paths[i])
    {
      assert SideBySide(paths[i], paths[j]);
      OrderAntisymmetric(bgp, paths[i], paths[j]);
    }
    forall i, j, k | 0 <= i < |paths| && 0 <= j < |paths| && 0 <= k < |paths| && i != j && j != k && i != k
      ensures Beats(bgp, paths[i], paths[j]) && Beats(bgp, paths[j], paths[k]) ==> Beats(bgp, paths[i], paths[k])
    {
      assert SideBySide(paths[i], paths[j]) && SideBySide(paths[j], paths[k]) && SideBySide(paths[i], paths[k]);
      DecisionIsTotalOrder(bgp, paths[i], paths[j], paths[k]);
    }
  }

  lemma OrderAntisymmetric(bgp: Bgp, a: PathInfo, b: PathInfo)
    requires bgp.alwaysCompareMed && SideBySide(a, b)
    ensures Beats(bgp, a, b) <==> !Beats(bgp, b, a)
  {
    DecisionIsKeyOrder(bgp, a, b);
    DecisionIsKeyOrder(bgp, b, a);
    KeyDistinct(bgp, a, b);
    KeyTotal(DecisionKey(bgp, a), DecisionKey(bgp, b));
    hide Beats, DecisionKey, KeyLess;
  }

  lemma ScanStep(bgp: Bgp, paths: seq<PathInfo>, n: nat)
    requires 1 < n <= |paths| && Scan(bgp, paths, n - 1).best.Some?
    ensures var b := Scan(bgp, paths, n - 1).best.value;
            Scan(bgp, paths, n).best == Some(if Beats(bgp, paths[n - 1], paths[b]) then n - 1 else b)
  {
    hide InfoCmp;
  }

  lemma FirstScanned(bgp: Bgp, paths: seq<PathInfo>)
    requires paths != []
    ensures Scan(bgp, paths, 1) == Selection(Some(0), [0])
  {
    assert Scan(bgp, paths, 0) == Selection(None, []);
  }

  /** The scan finds the path that beats every other. */
  lemma {:induction false} ScanFindsBest(bgp: Bgp, paths: seq<PathInfo>, n: nat)
    requires Ordered(bgp, paths) && 0 < n <= |paths|
    ensures Scan(bgp, paths, n).best.Some?
    ensures forall j :: 0 <= j < n && j != Scan(bgp, paths, n).best.value ==>
              Beats(bgp, paths[Scan(bgp, paths, n).best.value], paths[j])
  {
    hide Beats, Scan;
    if n == 1 {
      FirstScanned(bgp, paths);
    } else {
      ScanFindsBest(bgp, paths, n - 1);
      ScanStep(bgp, paths, n);
    }
  }

  /** Whatever order the paths arrived in, the same path is selected. */
  lemma SelectionIgnoresOrder(bgp: Bgp, p: seq<PathInfo>, q: seq<PathInfo>)
    requires bgp.alwaysCompareMed && AllSideBySide(p) && AllSideBySide(q)
    requires p != [] && multiset(p) == multiset(q)
    ensures q != [] && Scan(bgp, p, |p|).best.Some? && Scan(bgp, q, |q|).best.Some?
    ensures p[Scan(bgp, p, |p|).best.value] == q[Scan(bgp, q, |q|).best.value]
  {
    assert p[0] in multiset(q);
    ComparedIsOrdered(bgp, p);
    ComparedIsOrdered(bgp, q);
    ScanFindsBest(bgp, p, |p|);
    ScanFindsBest(bgp, q, |q|);
    var a, b := Scan(bgp, p, |p|).best.value, Scan(bgp, q, |q|).best.value;
    hide Beats, Scan, Learned;
    assert p[a] in multiset(q) && q[b] in multiset(p);
    var i :| 0 <= i < |q| && q[i] == p[a];
    var j :| 0 <= j < |p| && p[j] == q[b];
  }

  predicate Ascending(s: seq<nat>) {
    forall i, j :: 0 <= i < j < |s| ==> s[i] < s[j]
  }

  /** The candidates among the first `n` paths are those that tie with the best one. */
  ghost predicate CandidatesExact(bgp: Bgp, paths: seq<PathInfo>, n: nat, s: Selection)
    requires n <= |paths|
  {
    && s.best.Some? && s.best.value < n
    && Ascending(s.candidates)
    && (forall i :: i in s.candidates ==> i < n)
    && (forall i :: 0 <= i < n ==>
          (i in s.candidates <==> ClassKey(bgp, paths[i]) == ClassKey(bgp, paths[s.best.value])))
  }

  lemma CandidatesStep(bgp: Bgp, paths: seq<PathInfo>, n: nat, s: Selection)
    requires bgp.alwaysCompareMed && bgp.multipathRelax && AllSideBySide(paths) && 0 < n < |paths|
    requires CandidatesExact(bgp, paths, n, s)
    requires forall j :: 0 <= j < n && j != s.best.value ==> Beats(bgp, paths[s.best.value], paths[j])
    ensures CandidatesExact(bgp, paths, n + 1, Round(bgp, paths, s, n))
  {
    var b, t := s.best.value, Round(bgp, paths, s, n);
    assert SideBySide(paths[n], paths[b]);
    ClassOrder(bgp, paths[n], paths[b]);
    DecisionIsKeyOrder(bgp, paths[n], paths[b]);
    hide ClassKey, Preference, WinsTie, KeyLess, DecisionKey, Learned, AllSideBySide;
    if Preference(bgp, paths[n], paths[b]).Better? {
      forall i | 0 <= i < n ensures ClassKey(bgp, paths[i]) != ClassKey(bgp, paths[n]) {
        ClassBelow(bgp, paths, b, n, i);
      }
      assert t.candidates == [n];
    } else if Preference(bgp, paths[n], paths[b]).Tied? {
      assert t.candidates == s.candidates + [n];
      assert forall k :: 0 <= k < |s.candidates| ==> s.candidates[k] in s.candidates;
    } else {
      assert t.candidates == s.candidates;
    }
  }

  /** A path that is better than the best by its class is in a class of its own. */
  lemma ClassBelow(bgp: Bgp, paths: seq<PathInfo>, b: nat, n: nat, i: nat)
    requires bgp.alwaysCompareMed && AllSideBySide(paths) && b < n < |paths| && i < n
    requires i != b ==> Beats(bgp, paths[b], paths[i])
    requires KeyLess(ClassKey(bgp, paths[n]), ClassKey(bgp, paths[b]))
    ensures ClassKey(bgp, paths[i]) != ClassKey(bgp, paths[n])
  {
    KeyTotal(ClassKey(bgp, paths[n]), ClassKey(bgp, paths[b]));
    if i != b {
      assert SideBySide(paths[b], paths[i]);
      ClassOrder(bgp, paths[b], paths[i]);
    }
    hide ClassKey, KeyLess, Learned, AllSideBySide;
  }

  /** With AS paths relaxed, the candidates for multipath are exactly the paths of equal cost. */
  lemma {:induction false} CandidatesAreEqualCost(bgp: Bgp, paths: seq<PathInfo>, n: nat)
    requires bgp.alwaysCompareMed && bgp.multipathRelax && AllSideBySide(paths) && 0 < n <= |paths|
    ensures CandidatesExact(bgp, paths, n, Scan(bgp, paths, n))
  {
    hide Ordered, Scan, AllSideBySide;
    if n == 1 {
      FirstScanned(bgp, paths);
    } else {
      CandidatesAreEqualCost(bgp, paths, n - 1);
      ComparedIsOrdered(bgp, paths);
      ScanFindsBest(bgp, paths, n - 1);
      CandidatesStep(bgp, paths, n - 1, Scan(bgp, paths, n - 1));
      ScanRound(bgp, paths, n);
    }
  }

  // ----- which equal paths are kept -------------------------------------------------

  /** The path at `i` takes the place of a best path that it is not equal to. */
  predicate Replaces(bgp: Bgp, paths: seq<PathInfo>, i: nat)
    requires i < |paths|
  {
    var s := Scan(bgp, paths, i);
    s.best.None? || (Beats(bgp, paths[i], paths[s.best.value]) && !PathsEqual(bgp, paths[i], paths[s.best.value]))
  }

  /** Since the path at `r` no best path was replaced by one not equal to it. */
  predicate LastReplaced(bgp: Bgp, paths: seq<PathInfo>, r: nat, n: nat)
    requires n <= |paths|
  {
    r < n && Replaces(bgp, paths, r) && forall j :: r < j < n ==> !Replaces(bgp, paths, j)
  }

  /** The path at `i` was equal to the best path when its turn came. */
  predicate EqualInTurn(bgp: Bgp, paths: seq<PathInfo>, i: nat)
    requires i < |paths|
  {
    var s := Scan(bgp, paths, i);
    s.best.Some? && PathsEqual(bgp, paths[i], paths[s.best.value])
  }

  lemma RoundKeeps(bgp: Bgp, paths: seq<PathInfo>, n: nat)
    requires n < |paths|
    ensures var s, t := Scan(bgp, paths, n), Scan(bgp, paths, n + 1);
            t.candidates == if Replaces(bgp, paths, n) then [n]
                            else if EqualInTurn(bgp, paths, n) then s.candidates + [n] else s.candidates
  {
    ScanRound(bgp, paths, n + 1);
    hide Preference, WinsTie, Scan;
  }

  /** For every list and every configuration: kept are the last path that replaced an unequal one,
      and those after it that were equal to the best path in their turn. */
  lemma {:induction false} KeptSinceReplaced(bgp: Bgp, paths: seq<PathInfo>, n: nat) returns (r: nat)
    requires 0 < n <= |paths|
    ensures LastReplaced(bgp, paths, r, n) && Ascending(Scan(bgp, paths, n).candidates)
    ensures forall i :: i in Scan(bgp, paths, n).candidates <==>
              0 <= i < n && (i == r || (r < i && EqualInTurn(bgp, paths, i)))
  {
    hide Scan, Replaces, EqualInTurn;
    RoundKeeps(bgp, paths, n - 1);
    if n == 1 {
      FirstReplaces(bgp, paths);
      r := 0;
    } else {
      r := KeptSinceReplaced(bgp, paths, n - 1);
      var c := Scan(bgp, paths, n - 1).candidates;
      assert forall k :: 0 <= k < |c| ==> c[k] in c;
      if Replaces(bgp, paths, n - 1) {
        r := n - 1;
      }
    }
  }

  lemma FirstReplaces(bgp: Bgp, paths: seq<PathInfo>)
    requires paths != []
    ensures Replaces(bgp, paths, 0)
  {
  }

  /** Peers of the same AS and peers of its confederation do not stand side by side; between them
      the test for equality depends on which comes first. */
  predicate OneKind(paths: seq<PathInfo>) {
    forall i, j :: 0 <= i < |paths| && 0 <= j < |paths| ==> !(paths[i].sort.Ibgp? && paths[j].sort.Confed?)
  }

  /** Equal up to the tie break. */
  predicate Alike(bgp: Bgp, a: PathInfo, b: PathInfo) {
    && ClassKey(bgp, a) == ClassKey(bgp, b)
    && (bgp.multipathRelax || if a.sort.Ibgp? then a.aspath == b.aspath else a.peerAs == b.peerAs)
  }

  lemma AlikeIs(bgp: Bgp, paths: seq<PathInfo>, i: nat, j: nat)
    requires bgp.alwaysCompareMed && AllSideBySide(paths) && i < |paths| && j < |paths|
    ensures PathsEqual(bgp, paths[i], paths[j]) <==> Alike(bgp, paths[i], paths[j])
  {
    ClassOrder(bgp, paths[i], paths[j]);
    hide Preference, ClassKey, KeyLess;
  }

  lemma AlikeKind(bgp: Bgp, paths: seq<PathInfo>, i: nat, j: nat)
    requires AllSideBySide(paths) && OneKind(paths) && i < |paths| && j < |paths|
    requires ClassKey(bgp, paths[i]) == ClassKey(bgp, paths[j])
    ensures paths[i].sort.Ibgp? <==> paths[j].sort.Ibgp?
  {
    hide LocalPref, PathLength, MedValue;
    assert Learned(paths[i]) && Learned(paths[j]);
    assert !(paths[i].sort.Ibgp? && paths[j].sort.Confed?) && !(paths[j].sort.Ibgp? && paths[i].sort.Confed?);
  }

  /** Being alike carries over. */
  lemma AlikeTwo(bgp: Bgp, paths: seq<PathInfo>, i: nat, j: nat, k: nat)
    requires AllSideBySide(paths) && OneKind(paths) && i < |paths| && j < |paths| && k < |paths|
    requires Alike(bgp, paths[j], paths[k])
    ensures Alike(bgp, paths[i], paths[j]) <==> Alike(bgp, paths[i], paths[k])
    ensures Alike(bgp, paths[k], paths[j])
  {
    AlikeKind(bgp, paths, j, k);
    hide ClassKey, AllSideBySide, OneKind;
  }

  /** Since the last replacement every best path is alike. */
  lemma {:induction false} BestStaysAlike(bgp: Bgp, paths: seq<PathInfo>, r: nat, n: nat)
    requires bgp.alwaysCompareMed && AllSideBySide(paths) && OneKind(paths) && n <= |paths|
    requires LastReplaced(bgp, paths, r, n)
    ensures Scan(bgp, paths, n).best.Some? && Alike(bgp, paths[Scan(bgp, paths, n).best.value], paths[r])
  {
    hide Scan, Alike, AllSideBySide, OneKind, Beats, PathsEqual;
    if n == r + 1 {
      ReplacedBest(bgp, paths, r);
      AlikeSelf(bgp, paths[r]);
    } else {
      assert !Replaces(bgp, paths, n - 1);
      BestStaysAlike(bgp, paths, r, n - 1);
      ScanStep(bgp, paths, n);
      var b := Scan(bgp, paths, n - 1).best.value;
      AlikeIs(bgp, paths, n - 1, b);
      AlikeTwo(bgp, paths, n - 1, b, r);
    }
  }

  lemma AlikeSelf(bgp: Bgp, a: PathInfo)
    ensures Alike(bgp, a, a)
  {
  }

  lemma ReplacedBest(bgp: Bgp, paths: seq<PathInfo>, r: nat)
    requires r < |paths| && Replaces(bgp, paths, r)
    ensures Scan(bgp, paths, r + 1).best == Some(r)
  {
    ScanRound(bgp, paths, r + 1);
    hide Scan, Preference, WinsTie, PathsEqual;
  }

  /** Which paths equal to the best one are kept, with or without multipath-relax: exactly those from
      the last one on that replaced a best path not equal to it. */
  lemma EqualPathsKept(bgp: Bgp, paths: seq<PathInfo>, n: nat) returns (r: nat)
    requires bgp.alwaysCompareMed && AllSideBySide(paths) && OneKind(paths) && 0 < n <= |paths|
    ensures LastReplaced(bgp, paths, r, n) && Scan(bgp, paths, n).best.Some?
    ensures forall i :: i in Scan(bgp, paths, n).candidates <==>
              r <= i < n && PathsEqual(bgp, paths[i], paths[Scan(bgp, paths, n).best.value])
  {
    hide Scan, Alike, AllSideBySide, OneKind, PathsEqual, LastReplaced, EqualInTurn;
    r := KeptSinceReplaced(bgp, paths, n);
    BestStaysAlike(bgp, paths, r, n);
    var b, c := Scan(bgp, paths, n).best.value, Scan(bgp, paths, n).candidates;
    assert r < n by { LastWithin(bgp, paths, r, n); }
    forall i | r <= i < n
      ensures (i == r || EqualInTurn(bgp, paths, i)) <==> PathsEqual(bgp, paths[i], paths[b])
    {
      EqualSince(bgp, paths, r, i, n);
    }
  }

  lemma LastWithin(bgp: Bgp, paths: seq<PathInfo>, r: nat, n: nat)
    requires n <= |paths| && LastReplaced(bgp, paths, r, n)
    ensures r < n && forall i :: r < i <= n ==> LastReplaced(bgp, paths, r, i)
  {
    hide Replaces;
  }

  lemma EqualSince(bgp: Bgp, paths: seq<PathInfo>, r: nat, i: nat, n: nat)
    requires bgp.alwaysCompareMed && AllSideBySide(paths) && OneKind(paths) && r <= i < n <= |paths|
    requires LastReplaced(bgp, paths, r, n) && Scan(bgp, paths, n).best.Some?
    requires Alike(bgp, paths[Scan(bgp, paths, n).best.value], paths[r])
    ensures (i == r || EqualInTurn(bgp, paths, i)) <==> PathsEqual(bgp, paths[i], paths[Scan(bgp, paths, n).best.value])
  {
    hide Scan, Alike, AllSideBySide, OneKind, PathsEqual, LastReplaced;
    var b := Scan(bgp, paths, n).best.value;
    AlikeIs(bgp, paths, i, b);
    AlikeTwo(bgp, paths, i, b, r);
    if i > r {
      LastWithin(bgp, paths, r, n);
      BestStaysAlike(bgp, paths, r, i);
      var t := Scan(bgp, paths, i).best.value;
      AlikeIs(bgp, paths, i, t);
      AlikeTwo(bgp, paths, i, t, r);
    } else {
      AlikeTwo(bgp, paths, i, b, r);
    }
  }

  // ----- outside that scope ---------------------------------------------------------

  function Plain(asn: Asn, med: nat, igpMetric: nat, ip: nat): PathInfo {
    PathInfo(0, None, true, [Segment(AsSequence, [asn])], 0, Some(med), Ibgp, 1, igpMetric, false, false, None, ip, None, Inet(ip))
  }

  /** Without always-compare-med three paths can beat each other in a circle, and the path
      selected depends on the order they arrived in. */
  lemma MedCycle(bgp: Bgp) returns (a: PathInfo, b: PathInfo, c: PathInfo)
    requires !bgp.alwaysCompareMed
    ensures AllSideBySide([a, b, c]) && multiset([a, b, c]) == multiset([b, c, a])
    ensures Beats(bgp, b, a) && Beats(bgp, c, b) && Beats(bgp, a, c)
    ensures Scan(bgp, [a, b, c], 3).best == Some(2) && Scan(bgp, [b, c, a], 3).best == Some(2)
  {
    a, b, c := Plain(1, 10, 3, 1), Plain(2, 0, 2, 2), Plain(1, 20, 1, 3);
    CycleBeats(bgp, a, b, c);
    hide Beats, Plain;
    ScanThree(bgp, [a, b, c]);
    ScanThree(bgp, [b, c, a]);
    assert multiset([a, b, c]) == multiset{a, b, c} == multiset([b, c, a]);
  }

  lemma CycleBeats(bgp: Bgp, a: PathInfo, b: PathInfo, c: PathInfo)
    requires !bgp.alwaysCompareMed
    requires a == Plain(1, 10, 3, 1) && b == Plain(2, 0, 2, 2) && c == Plain(1, 20, 1, 3)
    ensures AllSideBySide([a, b, c])
    ensures Beats(bgp, b, a) && Beats(bgp, c, b) && Beats(bgp, a, c)
  {
    assert forall x: Asn :: CountHops([Segment(AsSequence, [x])]) == 1;
    assert forall x: Asn :: CountConfeds([Segment(AsSequence, [x])]) == 0;
    assert forall x: Asn :: SkipConfeds([Segment(AsSequence, [x])]) == [Segment(AsSequence, [x])];
  }

  /** Each path beats the one before it. */
  lemma ScanThree(bgp: Bgp, p: seq<PathInfo>)
    requires |p| == 3 && Beats(bgp, p[1], p[0]) && Beats(bgp, p[2], p[1])
    ensures Scan(bgp, p, 3).best == Some(2)
  {
    assert Scan(bgp, p, 1).best == Some(0);
    assert Scan(bgp, p, 2).best == Some(1);
  }

  function External(asn: Asn, ip: nat): PathInfo {
    PathInfo(0, None, true, [Segment(AsSequence, [asn])], 0, None, Ebgp, asn, 0, false, false, None, ip, None, Inet(ip))
  }

  /** Without multipath-relax a path equal to the best can be dropped: here the first path is
      thrown out by the second, from another AS, before the third and best one, from its own AS,
      arrives. */
  lemma EqualPathDropped(bgp: Bgp) returns (p: seq<PathInfo>)
    requires bgp.alwaysCompareMed && !bgp.multipathRelax
    ensures AllSideBySide(p) && |p| == 3
    ensures Scan(bgp, p, 3) == Selection(Some(2), [2]) && PathsEqual(bgp, p[0], p[2])
  {
    p := [External(1, 3), External(2, 2), External(1, 1)];
    assert forall x: Asn :: CountHops([Segment(AsSequence, [x])]) == 1;
    assert forall x: Asn :: CountConfeds([Segment(AsSequence, [x])]) == 0;
    assert Preference(bgp, p[1], p[0]).Tied? && Preference(bgp, p[2], p[1]).Tied? && Preference(bgp, p[0], p[2]).Tied?;
    assert WinsTie(bgp, p[1], p[0]) && WinsTie(bgp, p[2], p[1]);
    hide Preference, WinsTie;
    assert Scan(bgp, p, 1) == Selection(Some(0), [0]);
    assert Scan(bgp, p, 2) == Selection(Some(1), [1]);
  }
}
