/** The text form of community sets (community_com2str, community_gettoken and community_str2com in
    bgpd/bgp_community.c).  A C string is the sequence of its characters before the final NUL. */
module CommunityText {
  import opened Wrappers
  import opened Seqs
  import opened AsPath
  import opened AsPathText
  import opened Community

  // ----- printing -------------------------------------------------------------------

  function ValueText(v: Asn): (s: string)
    ensures s != []
  {
    if v == INTERNET then "internet"
    else if v == NO_EXPORT then "no-export"
    else if v == NO_ADVERTISE then "no-advertise"
    else if v == LOCAL_AS then "local-AS"
    else Decimal(v / 0x1_0000) + ([':'] + Decimal(v % 0x1_0000))
  }

  function SetText(c: seq<Asn>): string {
    if c == [] then ""
    else if |c| == 1 then ValueText(c[0])
    else ValueText(c[0]) + ([' '] + SetText(c[1..]))
  }

  /** The space set aside for one value. */
  function Reserved(v: Asn): nat {
    if v == INTERNET then 9
    else if v == NO_EXPORT then 10
    else if v == NO_ADVERTISE then 13
    else if v == LOCAL_AS then 9
    else 12
  }

  function ReservedAll(c: seq<Asn>): nat {
    if c == [] then 0 else Reserved(c[0]) + ReservedAll(c[1..])
  }

  lemma ShortNumber(n: nat)
    requires n < 0x1_0000
    ensures |Decimal(n)| <= 5
  {
    assert Pow10(2) == 100;
    assert Pow10(4) == 10_000;
    assert Pow10(5) == 100_000;
    DecimalWidth(n, 5);
  }

  /** The text of a set with its final NUL fits the space computed for it. */
  lemma {:induction false} TextFits(c: seq<Asn>)
    requires c != []
    ensures |SetText(c)| + 1 <= ReservedAll(c)
  {
    ShortNumber(c[0] / 0x1_0000);
    ShortNumber(c[0] % 0x1_0000);
    hide Decimal;
    assert |ValueText(c[0])| + 1 <= Reserved(c[0]);
    if |c| > 1 {
      TextFits(c[1..]);
    }
  }

  /** The space that goes before every value but the first. */
  function Led(i: nat): string {
    if i == 0 then "" else " "
  }

  /** What is still to be written before value `i`. */
  function Unwritten(c: seq<Asn>, i: nat): string
    requires i <= |c|
  {
    if i == |c| then "" else Led(i) + SetText(c[i..])
  }

  lemma UnwrittenStep(c: seq<Asn>, i: nat)
    requires i < |c|
    ensures Unwritten(c, i) == (Led(i) + ValueText(c[i])) + Unwritten(c, i + 1)
  {
    hide ValueText;
    assert c[i..][1..] == c[i + 1..];
    assert SetText(c[i..]) == ValueText(c[i]) + Unwritten(c, i + 1);
    AppendAssoc(Led(i), ValueText(c[i]), Unwritten(c, i + 1));
  }

  /** community_com2str: the buffer is allocated first and then filled; it is never overrun. */
  method Com2Str(c: seq<Asn>) returns (s: string)
    ensures s == SetText(c)
  {
    if c == [] {
      return "";
    }
    hide ValueText, SetText, ReservedAll, Unwritten, Led;
    var len := ReservedLength(c);
    TextFits(c);
    UnwrittenEnds(c);
    s := "";
    for i := 0 to |c|
      invariant s + Unwritten(c, i) == SetText(c)
    {
      var piece := Led(i) + ValueText(c[i]);
      UnwrittenStep(c, i);
      AppendAssoc(s, piece, Unwritten(c, i + 1));
      s := s + piece;
      assert |s| < len;
    }
    assert s + "" == s;
  }

  lemma UnwrittenEnds(c: seq<Asn>)
    ensures Unwritten(c, |c|) == "" && "" + Unwritten(c, 0) == SetText(c)
  {
    assert c[0..] == c;
  }

  /** The first pass of community_com2str. */
  method ReservedLength(c: seq<Asn>) returns (len: nat)
    ensures len == ReservedAll(c)
  {
    len := 0;
    assert c[0..] == c;
    for i := 0 to |c|
      invariant len + ReservedAll(c[i..]) == ReservedAll(c)
    {
      assert c[i..][1..] == c[i + 1..];
      len := len + Reserved(c[i]);
    }
  }

  // ----- reading --------------------------------------------------------------------

  predicate IsSpace(c: char) {
    c == ' ' || 9 <= c as int <= 13
  }

  predicate IsAlpha(c: char) {
    'a' <= c <= 'z' || 'A' <= c <= 'Z'
  }

  function SkipSpaces(s: string): (r: string)
    ensures |r| <= |s|
  {
    if s != [] && IsSpace(s[0]) then SkipSpaces(s[1..]) else s
  }

  /** The number read so far: what stood before the colon, shifted, and what follows it. */
  datatype Number = Number(separator: bool, digit: bool, high: Asn, low: Asn)

  /** Reads digits and at most one colon into 32-bit accumulators; None on a second colon. */
  function ScanValue(n: Number, s: string): (r: Option<(Number, string)>)
    ensures r.Some? ==> |r.value.1| <= |s|
    decreases s
  {
    if s == [] || !(IsDigit(s[0]) || s[0] == ':') then Some((n, s))
    else if s[0] == ':' then
      if n.separator then None
      else
        var low: int := n.low;
        ScanValue(Number(true, false, low * 0x1_0000 % 0x1_0000_0000, 0), s[1..])
    else
      var low: int := n.low;
      ScanValue(n.(digit := true, low := (low * 10 + (s[0] as int - '0' as int)) % 0x1_0000_0000), s[1..])
  }

  predicate HasPrefix(s: string, w: string) {
    |w| <= |s| && s[..|w|] == w
  }

  datatype Reading = Value(value: Asn, rest: string) | AtEnd | Malformed

  /** community_gettoken */
  function GetValue(s: string): (r: Reading)
    ensures r.Value? ==> |r.rest| < |s|
  {
    var t := SkipSpaces(s);
    if t == [] then AtEnd
    else if IsAlpha(t[0]) then
      if HasPrefix(t, "internet") then Value(INTERNET, t[8..])
      else if HasPrefix(t, "no-export") then Value(NO_EXPORT, t[9..])
      else if HasPrefix(t, "no-advertise") then Value(NO_ADVERTISE, t[12..])
      else if HasPrefix(t, "local-AS") then Value(LOCAL_AS, t[8..])
      else Malformed
    else if IsDigit(t[0]) then
      var n := ScanValue(Number(false, true, 0, t[0] as int - '0' as int), t[1..]);
      if n.None? || !n.value.0.digit then Malformed
      else
        var high: int, low: int := n.value.0.high, n.value.0.low;
        Value((high + low) % 0x1_0000_0000, n.value.1)
    else Malformed
  }

  /** The values community_str2com adds: when it meets the end, the last token is still set, and
      its value is added once more. */
  function ReadValues(s: string, last: Option<Asn>): Option<seq<Asn>>
    decreases |s|
  {
    match GetValue(s)
    case Malformed => None
    case AtEnd => if last.None? then None else Some([last.value])
    case Value(v, rest) =>
      var more := ReadValues(rest, Some(v));
      if more.None? then None else Some([v] + more.value)
  }

  function ParseSet(s: string): Option<seq<Asn>> {
    var vs := ReadValues(s, None);
    if vs.None? then None else Some(CanonSet(vs.value))
  }

  /** community_str2com */
  method Str2Com(str: string) returns (r: Option<Communities>)
    ensures r.None? <==> ParseSet(str).None?
    ensures r.Some? ==> fresh(r.value) && Some(r.value.val) == ParseSet(str)
  {
    hide GetValue, CanonSet;
    var com := new Communities();
    var s, last: Option<Asn>, more := str, None, true;
    assert forall t: seq<Asn> :: [] + t == t;
    while more
      invariant fresh(com)
      invariant more ==> ReadValues(str, None) == Extended(com.val, ReadValues(s, last))
      invariant !more ==> ReadValues(str, None) == Some(com.val)
      decreases more, |s|
    {
      var next := GetValue(s);
      match next {
        case Malformed =>
          return None;
        case AtEnd =>
          if last.None? {
            return None;
          }
          com.AddVal(last.value);
          more := false;
        case Value(v, rest) =>
          ghost var before := com.val;
          com.AddVal(v);
          ExtendedCons(before, v, ReadValues(rest, Some(v)));
          s, last := rest, Some(v);
      }
    }
    var sorted := com.UniqSort();
    r := Some(sorted);
  }

  function Extended(front: seq<Asn>, more: Option<seq<Asn>>): Option<seq<Asn>> {
    if more.None? then None else Some(front + more.value)
  }

  lemma ExtendedCons(front: seq<Asn>, v: Asn, more: Option<seq<Asn>>)
    ensures Extended(front + [v], more) == Extended(front, if more.None? then None else Some([v] + more.value))
  {
    if more.Some? {
      AppendAssoc(front, [v], more.value);
    }
  }

  // ----- the round trip -------------------------------------------------------------

  lemma {:induction false} ScanDigits(n: Number, s: string)
    ensures var (low, rest) := ScanNumber(n.low, s);
            ScanValue(n, s) == ScanValue(n.(digit := n.digit || (s != [] && IsDigit(s[0])), low := low), rest)
    decreases s
  {
    if s != [] && IsDigit(s[0]) {
      var low: int := n.low;
      ScanDigits(n.(digit := true, low := (low * 10 + (s[0] as int - '0' as int)) % 0x1_0000_0000), s[1..]);
    }
  }

  /** A printed number is read up to what follows it. */
  lemma ScanPrinted(n: Number, v: Asn, t: string)
    requires n.low == 0 && StartsClean(t)
    ensures ScanValue(n, Decimal(v) + t) == ScanValue(n.(digit := true, low := v), t)
  {
    ScanDigits(n, Decimal(v) + t);
    ScanDecimal(v, t);
    DecimalDigit(v);
    hide Decimal;
    assert (Decimal(v) + t)[0] == Decimal(v)[0];
    assert ScanNumber(v, t) == (v, t);
  }

  predicate Delimited(t: string) {
    t == [] || IsSpace(t[0])
  }

  lemma ScanColon(low: Asn, t: string)
    requires low < 0x1_0000
    ensures ScanValue(Number(false, true, 0, low), [':'] + t) == ScanValue(Number(true, false, low * 0x1_0000, 0), t)
  {
    assert ([':'] + t)[1..] == t;
  }

  lemma ScanStop(n: Number, t: string)
    requires Delimited(t)
    ensures ScanValue(n, t) == Some((n, t))
  {
  }

  lemma ScanPair(hi: Asn, lo: Asn, t: string)
    requires Delimited(t) && hi < 0x1_0000
    ensures ScanValue(Number(false, true, 0, 0), Decimal(hi) + ([':'] + (Decimal(lo) + t)))
         == Some((Number(true, true, hi * 0x1_0000, lo), t))
  {
    hide Decimal, ScanValue;
    ScanPrinted(Number(false, true, 0, 0), hi, [':'] + (Decimal(lo) + t));
    ScanColon(hi, Decimal(lo) + t);
    ScanPrinted(Number(true, false, hi * 0x1_0000, 0), lo, t);
    ScanStop(Number(true, true, hi * 0x1_0000, lo), t);
  }

  lemma FirstDigit(s: string)
    requires s != [] && IsDigit(s[0])
    ensures var d: Asn := s[0] as int - '0' as int;
            ScanValue(Number(false, true, 0, 0), s) == ScanValue(Number(false, true, 0, d), s[1..])
    ensures SkipSpaces(s) == s && !IsAlpha(s[0])
  {
  }

  lemma ReadPair(high: Asn, low: Asn, s: string, t: string)
    requires high + low < 0x1_0000_0000 && s != [] && IsDigit(s[0]) && |t| < |s|
    requires ScanValue(Number(false, true, 0, 0), s) == Some((Number(true, true, high, low), t))
    ensures GetValue(s) == Value(high + low, t)
  {
    hide ScanValue, SkipSpaces, HasPrefix, IsAlpha;
    FirstDigit(s);
  }

  lemma ReadNumber(v: Asn, t: string)
    requires Delimited(t)
    ensures GetValue(Decimal(v / 0x1_0000) + ([':'] + Decimal(v % 0x1_0000)) + t) == Value(v, t)
  {
    hide Decimal, ScanValue, GetValue;
    var hi, lo := v / 0x1_0000, v % 0x1_0000;
    var s := Decimal(hi) + ([':'] + (Decimal(lo) + t));
    ScanPair(hi, lo, t);
    DecimalDigit(hi);
    assert s[0] == Decimal(hi)[0];
    ReadPair(hi * 0x1_0000, lo, s, t);
    AppendAssoc(Decimal(hi), [':'] + Decimal(lo), t);
    AppendAssoc([':'], Decimal(lo), t);
  }

  lemma ReadWord(w: string, t: string)
    requires w in {"internet", "no-export", "no-advertise", "local-AS"}
    ensures GetValue(w + t) == Value(if w == "internet" then INTERNET else if w == "no-export" then NO_EXPORT
                                     else if w == "no-advertise" then NO_ADVERTISE else LOCAL_AS, t)
  {
    var s := w + t;
    assert s[0] == w[0] && IsAlpha(w[0]) && !IsSpace(w[0]);
    assert SkipSpaces(s) == s;
    assert s[..|w|] == w && s[|w|..] == t;
    assert w == "no-advertise" ==> s[3] == 'a';
    assert "no-export"[3] == 'e';
  }

  lemma ReadPrinted(v: Asn, t: string)
    requires Delimited(t)
    ensures GetValue(ValueText(v) + t) == Value(v, t)
  {
    hide GetValue;
    if v in {INTERNET, NO_EXPORT, NO_ADVERTISE, LOCAL_AS} {
      ReadWord(ValueText(v), t);
    } else {
      ReadNumber(v, t);
    }
  }

  lemma ReadSpace(t: string)
    ensures GetValue([' '] + t) == GetValue(t)
  {
    assert ([' '] + t)[1..] == t;
    assert SkipSpaces([' '] + t) == SkipSpaces(t);
  }

  lemma {:induction false} ReadBack(c: seq<Asn>, last: Option<Asn>)
    requires c != []
    ensures ReadValues(SetText(c), last) == Some(c + [c[|c| - 1]])
  {
    hide GetValue, ValueText;
    var v := c[0];
    if |c| == 1 {
      ReadPrinted(v, []);
      assert ValueText(v) + [] == ValueText(v);
      assert GetValue([]) == AtEnd by { EndOfText(); }
      assert ReadValues([], Some(v)) == Some([v]);
      assert c + [v] == [v] + [v];
    } else {
      var more := SetText(c[1..]);
      ReadPrinted(v, [' '] + more);
      ReadSpace(more);
      ReadBack(c[1..], Some(v));
      assert ReadValues([' '] + more, Some(v)) == ReadValues(more, Some(v));
      assert c + [c[|c| - 1]] == [v] + (c[1..] + [c[1..][|c| - 2]]);
    }
  }

  lemma EndOfText()
    ensures GetValue([]) == AtEnd
  {
  }

  /** Reading back a printed list gives the set it stands for, so a sorted set is read back
      unchanged, and nothing else is. */
  lemma SetRoundTrip(c: seq<Asn>)
    ensures ParseSet(SetText(c)) == if c == [] then None else Some(CanonSet(c))
    ensures ParseSet(SetText(c)) == Some(c) <==> c != [] && StrictlySorted(c)
  {
    if c == [] {
      EndOfText();
    } else {
      ReadBack(c, None);
      var x := c[|c| - 1];
      AsnSetSnoc(c, x);
      assert x in AsnSet(c);
      CanonicalForm(c + [x], c);
      CanonicalForm(c, c);
      hide CanonSet, ReadValues, SetText;
    }
  }
}
