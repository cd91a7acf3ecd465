/** BGP community sets (bgpd/bgp_community.c): sorting, matching, merging and deleting.
    A community value is a 32-bit number, kept here in host byte order. */
module Community {
  import opened Wrappers
  import opened Seqs
  import opened AsPath

  const INTERNET: Asn := 0
  const NO_EXPORT: Asn := 0xFFFF_FF01
  const NO_ADVERTISE: Asn := 0xFFFF_FF02
  const LOCAL_AS: Asn := 0xFFFF_FF03

  // ----- sets -----------------------------------------------------------------------

  predicate NoDuplicates(s: seq<Asn>) {
    forall i, j :: 0 <= i < j < |s| ==> s[i] != s[j]
  }

  /** The first occurrences. */
  function Distinct(s: seq<Asn>): (r: seq<Asn>)
    ensures NoDuplicates(r) && AsnSet(r) == AsnSet(s)
  {
    if s == [] then []
    else
      var front, x := s[..|s| - 1], s[|s| - 1];
      var r := Distinct(front);
      assert s == front + [x];
      AsnSetSnoc(front, x);
      AsnSetSnoc(r, x);
      if x in r then
        assert x in AsnSet(r);
        r
      else r + [x]
  }

  lemma {:induction false} InsertStrict(s: seq<Asn>, x: Asn)
    requires StrictlySorted(s) && x !in s
    ensures StrictlySorted(Insert(s, x))
  {
    if s != [] && x > s[0] {
      InsertStrict(s[1..], x);
      InsertSorted(s[1..], x);
      var t := Insert(s[1..], x);
      forall i | 0 <= i < |t| ensures s[0] < t[i] {
        assert t[i] in AsnSet(t);
      }
    }
  }

  lemma {:induction false} SortStrict(s: seq<Asn>)
    requires NoDuplicates(s)
    ensures StrictlySorted(Sort(s)) && AsnSet(Sort(s)) == AsnSet(s)
  {
    SortSorts(s);
    if s != [] {
      var t := Sort(s[1..]);
      SortStrict(s[1..]);
      assert forall y :: y in t ==> y in AsnSet(t);
      assert s[0] !in t;
      InsertStrict(t, s[0]);
    }
  }

  /** Dropping duplicates and then sorting is the same as sorting and then dropping them. */
  lemma UniqSorted(s: seq<Asn>)
    ensures Sort(Distinct(s)) == CanonSet(s)
  {
    SortStrict(Distinct(s));
    CanonSetIsCanonical(s);
    StrictListingUnique(Sort(Distinct(s)), CanonSet(s));
  }

  /** The sorted form is canonical: it stands for the set, and for nothing else. */
  lemma CanonicalForm(a: seq<Asn>, b: seq<Asn>)
    ensures CanonSet(a) == CanonSet(b) <==> AsnSet(a) == AsnSet(b)
    ensures CanonSet(a) == a <==> StrictlySorted(a)
  {
    CanonSetIsCanonical(a);
    CanonSetIsCanonical(b);
    if AsnSet(a) == AsnSet(b) {
      StrictListingUnique(CanonSet(a), CanonSet(b));
    }
    if StrictlySorted(a) {
      StrictListingUnique(CanonSet(a), a);
    }
  }

  // ----- matching -------------------------------------------------------------------

  /** What the single walk of community_match decides. */
  predicate Subsequence(sub: seq<Asn>, s: seq<Asn>) {
    if sub == [] then true
    else if s == [] then false
    else if s[0] == sub[0] then Subsequence(sub[1..], s[1..])
    else Subsequence(sub, s[1..])
  }

  lemma {:induction false} SubsequenceShorter(sub: seq<Asn>, s: seq<Asn>)
    requires Subsequence(sub, s)
    ensures |sub| <= |s|
  {
    if sub != [] {
      SubsequenceShorter(if s[0] == sub[0] then sub[1..] else sub, s[1..]);
    }
  }

  lemma StrictTail(s: seq<Asn>)
    requires StrictlySorted(s) && s != []
    ensures StrictlySorted(s[1..]) && AsnSet(s) == {s[0]} + AsnSet(s[1..])
    ensures forall y :: y in AsnSet(s[1..]) ==> s[0] < y
  {
    assert s == [s[0]] + s[1..];
    AsnSetCons(s[0], s[1..]);
  }

  /** On sorted sets the walk decides inclusion. */
  lemma {:induction false} MatchIsSubset(sub: seq<Asn>, s: seq<Asn>)
    requires StrictlySorted(sub) && StrictlySorted(s)
    ensures Subsequence(sub, s) <==> AsnSet(sub) <= AsnSet(s)
  {
    if sub == [] {
    } else if s == [] {
      assert sub[0] in AsnSet(sub);
    } else {
      StrictTail(sub);
      StrictTail(s);
      hide StrictlySorted, AsnSet;
      if s[0] == sub[0] {
        MatchIsSubset(sub[1..], s[1..]);
        assert s[0] !in AsnSet(sub[1..]);
      } else {
        MatchIsSubset(sub, s[1..]);
        assert s[0] in AsnSet(sub) ==> sub[0] < s[0];
        assert AsnSet(sub) <= AsnSet(s) ==> sub[0] in AsnSet(s[1..]);
      }
    }
  }

  /** community_match: is every community of `com2` in `com1`? */
  method Match(com1: Option<seq<Asn>>, com2: Option<seq<Asn>>) returns (b: bool)
    ensures com1.None? || com2.None? ==> b == (com1.None? && com2.None?)
    ensures com1.Some? && com2.Some? ==> b == Subsequence(com2.value, com1.value)
    ensures com1.Some? && com2.Some? && StrictlySorted(com1.value) && StrictlySorted(com2.value) ==>
              b == (AsnSet(com2.value) <= AsnSet(com1.value))
  {
    if com1.None? && com2.None? {
      return true;
    }
    if com1.None? || com2.None? {
      return false;
    }
    var c1, c2 := com1.value, com2.value;
    if StrictlySorted(c1) && StrictlySorted(c2) {
      MatchIsSubset(c2, c1);
    }
    if Subsequence(c2, c1) {
      SubsequenceShorter(c2, c1);
    }
    hide StrictlySorted, AsnSet;
    if |c1| < |c2| {
      return false;
    }
    var i, j := 0, 0;
    assert c1[0..] == c1 && c2[0..] == c2;
    while i < |c1| && j < |c2|
      invariant i <= |c1| && j <= |c2|
      invariant Subsequence(c2[j..], c1[i..]) == Subsequence(c2, c1)
    {
      assert c1[i..][1..] == c1[i + 1..] && c2[j..][1..] == c2[j + 1..];
      if c1[i] == c2[j] {
        j := j + 1;
      }
      i := i + 1;
    }
    b := j == |c2|;
  }

  // ----- deleting -------------------------------------------------------------------

  function RemoveFirst(s: seq<Asn>, v: Asn): seq<Asn> {
    if s == [] then [] else if s[0] == v then s[1..] else [s[0]] + RemoveFirst(s[1..], v)
  }

  function Deleted(s: seq<Asn>, gone: seq<Asn>): seq<Asn>
    decreases gone
  {
    if gone == [] then s else Deleted(RemoveFirst(s, gone[0]), gone[1..])
  }

  function Without(s: seq<Asn>, gone: set<Asn>): seq<Asn> {
    if s == [] then [] else (if s[0] in gone then [] else [s[0]]) + Without(s[1..], gone)
  }

  lemma CountsCons(x: Asn, s: seq<Asn>)
    ensures multiset([x] + s) == multiset{x} + multiset(s)
  {
  }

  lemma CountsMinus(m: multiset<Asn>, a: multiset<Asn>, b: multiset<Asn>)
    ensures m - a - b == m - (a + b)
  {
  }

  lemma {:induction false} RemoveFirstCounts(s: seq<Asn>, v: Asn)
    ensures multiset(RemoveFirst(s, v)) == multiset(s) - multiset{v}
  {
    if s != [] {
      assert s == [s[0]] + s[1..];
      CountsCons(s[0], s[1..]);
      if s[0] != v {
        RemoveFirstCounts(s[1..], v);
        CountsCons(s[0], RemoveFirst(s[1..], v));
      }
    }
  }

  /** Deletion takes away one copy for every copy listed. */
  lemma {:induction false} DeletedCounts(s: seq<Asn>, gone: seq<Asn>)
    ensures multiset(Deleted(s, gone)) == multiset(s) - multiset(gone)
    decreases gone
  {
    hide RemoveFirst;
    if gone == [] {
      assert multiset(s) - multiset{} == multiset(s);
    } else {
      var v, rest := gone[0], gone[1..];
      var t := RemoveFirst(s, v);
      assert multiset(gone) == multiset{v} + multiset(rest) by {
        assert gone == [v] + rest;
        CountsCons(v, rest);
      }
      assert multiset(t) == multiset(s) - multiset{v} by { RemoveFirstCounts(s, v); }
      DeletedCounts(t, rest);
      assert Deleted(s, gone) == Deleted(t, rest);
      CountsMinus(multiset(s), multiset{v}, multiset(rest));
    }
  }

  lemma {:induction false} RemoveFirstWithout(s: seq<Asn>, v: Asn)
    requires NoDuplicates(s)
    ensures RemoveFirst(s, v) == Without(s, {v})
  {
    if s != [] {
      if s[0] == v {
        assert forall i :: 0 <= i < |s[1..]| ==> s[1..][i] != v;
        NothingGone(s[1..], {v});
      } else {
        RemoveFirstWithout(s[1..], v);
      }
    }
  }

  lemma {:induction false} NothingGone(s: seq<Asn>, gone: set<Asn>)
    requires forall i :: 0 <= i < |s| ==> s[i] !in gone
    ensures Without(s, gone) == s
  {
    if s != [] {
      NothingGone(s[1..], gone);
    }
  }

  lemma {:induction false} WithoutTwice(s: seq<Asn>, a: set<Asn>, b: set<Asn>)
    ensures Without(Without(s, a), b) == Without(s, a + b)
  {
    if s != [] {
      WithoutTwice(s[1..], a, b);
      var t := Without(s[1..], a);
      assert ([s[0]] + t)[1..] == t;
      assert [] + t == t;
    }
  }

  lemma {:induction false} WithoutDistinct(s: seq<Asn>, gone: set<Asn>)
    requires NoDuplicates(s)
    ensures NoDuplicates(Without(s, gone))
    ensures forall y :: y in Without(s, gone) <==> y in s && y !in gone
  {
    if s != [] {
      assert s == [s[0]] + s[1..];
      WithoutDistinct(s[1..], gone);
    }
  }

  /** On a set, deletion is set difference, and keeps the order. */
  lemma {:induction false} DeletedIsDifference(s: seq<Asn>, gone: seq<Asn>)
    requires NoDuplicates(s)
    ensures Deleted(s, gone) == Without(s, AsnSet(gone))
    decreases gone
  {
    if gone == [] {
      NothingGone(s, AsnSet(gone));
    } else {
      var v := gone[0];
      RemoveFirstWithout(s, v);
      WithoutDistinct(s, {v});
      DeletedIsDifference(Without(s, {v}), gone[1..]);
      WithoutTwice(s, {v}, AsnSet(gone[1..]));
      assert gone == [v] + gone[1..];
      AsnSetCons(v, gone[1..]);
    }
  }

  /** Deletion of a list from itself: the list shrinks while it is read. */
  function DeletedFromItself(s: seq<Asn>, i: nat): seq<Asn>
    decreases |s| - i
  {
    if i >= |s| then s
    else
      RemoveFirstShorter(s, s[i]);
      DeletedFromItself(RemoveFirst(s, s[i]), i + 1)
  }

  lemma {:induction false} RemoveFirstShorter(s: seq<Asn>, v: Asn)
    ensures v in s ==> |RemoveFirst(s, v)| == |s| - 1
    ensures v !in s ==> RemoveFirst(s, v) == s
  {
    if s != [] {
      RemoveFirstShorter(s[1..], v);
      assert s == [s[0]] + s[1..];
    }
  }

  lemma {:induction false} RemoveFirstAt(s: seq<Asn>, i: nat)
    requires NoDuplicates(s) && i < |s|
    ensures RemoveFirst(s, s[i]) == s[..i] + s[i + 1..]
  {
    if i > 0 {
      assert s[0] != s[i];
      RemoveFirstAt(s[1..], i - 1);
      hide NoDuplicates;
      assert s[..i] == [s[0]] + s[1..][..i - 1] && s[i + 1..] == s[1..][i..];
      AppendAssoc([s[0]], s[1..][..i - 1], s[i + 1..]);
    }
  }

  lemma DistinctWithoutOne(s: seq<Asn>, i: nat)
    requires NoDuplicates(s) && i < |s|
    ensures NoDuplicates(s[..i] + s[i + 1..])
  {
    var t := s[..i] + s[i + 1..];
    forall a, b | 0 <= a < b < |t| ensures t[a] != t[b] {
      assert t[a] == s[if a < i then a else a + 1] && t[b] == s[if b < i then b else b + 1];
    }
  }

  /** Every second value. */
  function Alternate(s: seq<Asn>): seq<Asn> {
    if |s| < 2 then [] else [s[1]] + Alternate(s[2..])
  }

  /** A set deleted from itself keeps every second value. */
  lemma {:induction false} DeletedFromItselfAlternates(s: seq<Asn>, i: nat)
    requires NoDuplicates(s) && i <= |s|
    ensures DeletedFromItself(s, i) == s[..i] + Alternate(s[i..])
    decreases |s| - i
  {
    if i == |s| {
      assert s[..i] + [] == s;
    } else {
      var t := s[..i] + s[i + 1..];
      RemoveFirstAt(s, i);
      DistinctWithoutOne(s, i);
      if i + 1 == |s| {
        assert t == s[..i] && s[..i] + [] == s[..i];
      } else {
        DeletedFromItselfAlternates(t, i + 1);
        assert t[..i + 1] == s[..i] + [s[i + 1]] && t[i + 1..] == s[i..][2..];
        AppendAssoc(s[..i], [s[i + 1]], Alternate(s[i..][2..]));
      }
    }
  }

  lemma {:induction false} AlternateLength(s: seq<Asn>)
    ensures |Alternate(s)| == |s| / 2
  {
    if |s| >= 2 {
      AlternateLength(s[2..]);
    }
  }

  /** So it is emptied only if it had one value at most. */
  lemma DeletedFromItselfEmpties(s: seq<Asn>)
    requires NoDuplicates(s)
    ensures |DeletedFromItself(s, 0)| == |s| / 2
    ensures DeletedFromItself(s, 0) == [] <==> |s| <= 1
  {
    DeletedFromItselfAlternates(s, 0);
    assert s[0..] == s && [] + Alternate(s) == Alternate(s);
    AlternateLength(s);
  }

  lemma DeletionFacts(s: seq<Asn>, gone: seq<Asn>)
    ensures gone[0..] == gone
    ensures multiset(Deleted(s, gone)) == multiset(s) - multiset(gone)
    ensures NoDuplicates(s) ==> Deleted(s, gone) == Without(s, AsnSet(gone)) && DeletedFromItself(s, 0) == Alternate(s)
  {
    DeletedCounts(s, gone);
    if NoDuplicates(s) {
      DeletedIsDifference(s, gone);
      DeletedFromItselfAlternates(s, 0);
      assert s[0..] == s && [] + Alternate(s) == Alternate(s);
    }
  }

  lemma DeletionStep(s: seq<Asn>, gone: seq<Asn>, i: nat)
    requires i < |gone|
    ensures Deleted(s, gone[i..]) == Deleted(RemoveFirst(s, gone[i]), gone[i + 1..])
    ensures s == gone ==> DeletedFromItself(s, i) == DeletedFromItself(RemoveFirst(s, s[i]), i + 1)
    ensures s == gone ==> |RemoveFirst(s, s[i])| == |s| - 1
  {
    hide RemoveFirst;
    assert gone[i..][1..] == gone[i + 1..];
    RemoveFirstShorter(s, gone[i]);
  }

  lemma DeletionEnd(s: seq<Asn>, gone: seq<Asn>, i: nat)
    requires i >= |gone|
    ensures i == |gone| ==> Deleted(s, gone[i..]) == s
    ensures s == gone ==> DeletedFromItself(s, i) == s
  {
  }

  // ----- the attribute --------------------------------------------------------------

  class Communities {
    var val: seq<Asn>

    constructor ()
      ensures val == []
    {
      val := [];
    }

    method AddVal(v: Asn)
      modifies this
      ensures val == old(val) + [v]
    {
      val := val + [v];
    }

    method Include(v: Asn) returns (b: bool)
      ensures b <==> v in val
    {
      for i := 0 to |val|
        invariant v !in val[..i]
      {
        if val[i] == v {
          return true;
        }
        assert val[..i + 1] == val[..i] + [val[i]];
      }
      assert val[..|val|] == val;
      b := false;
    }

    /** community_del_val: only the first occurrence goes. */
    method DelVal(v: Asn)
      modifies this
      ensures val == RemoveFirst(old(val), v)
    {
      var i := 0;
      assert val[0..] == val;
      while i < |val|
        invariant i <= |val| && val == old(val)
        invariant RemoveFirst(val, v) == val[..i] + RemoveFirst(val[i..], v)
      {
        assert val[i..][1..] == val[i + 1..];
        if val[i] == v {
          val := val[..i] + val[i + 1..];
          return;
        }
        assert val[..i + 1] == val[..i] + [val[i]];
        AppendAssoc(val[..i], [val[i]], RemoveFirst(val[i + 1..], v));
        i := i + 1;
      }
      assert val[..i] + [] == val;
    }

    /** community_delete; nothing keeps the two from being the same object. */
    method Delete(other: Communities)
      modifies this
      ensures other != this ==>
                && val == Deleted(old(val), other.val)
                && multiset(val) == multiset(old(val)) - multiset(other.val)
                && (NoDuplicates(old(val)) ==> val == Without(old(val), AsnSet(other.val)))
      ensures other == this ==>
                && val == DeletedFromItself(old(val), 0)
                && (NoDuplicates(old(val)) ==> val == Alternate(old(val)))
    {
      hide NoDuplicates, AsnSet, Without, Alternate, RemoveFirst, Deleted, DeletedFromItself;
      DeletionFacts(val, other.val);
      var i := 0;
      while i < |other.val|
        invariant other != this ==> i <= |other.val|
        invariant other != this ==> Deleted(val, other.val[i..]) == Deleted(old(val), other.val)
        invariant other == this ==> DeletedFromItself(val, i) == DeletedFromItself(old(val), 0)
        decreases |other.val| - i
      {
        DeletionStep(val, other.val, i);
        DelVal(other.val[i]);
        i := i + 1;
      }
      DeletionEnd(val, other.val, i);
    }

    /** community_merge; the other set may be this one. */
    method Merge(other: Communities)
      modifies this
      ensures val == old(val) + old(other.val)
    {
      val := val + other.val;
    }

    /** community_uniq_sort: the canonical listing of the set, in a new object. */
    method UniqSort() returns (r: Communities)
      ensures fresh(r) && r.val == CanonSet(val)
    {
      r := new Communities();
      var i := 0;
      while i < |val|
        invariant fresh(r) && i <= |val| && r.val == Distinct(val[..i])
      {
        assert val[..i + 1][..i] == val[..i];
        var known := r.Include(val[i]);
        if !known {
          r.AddVal(val[i]);
        }
        i := i + 1;
      }
      assert val[..i] == val;
      UniqSorted(val);
      r.val := Sort(r.val);
    }
  }
}
