/** The text form of AS paths (aspath_make_str_count, aspath_gettoken and aspath_str2aspath in
    bgpd/bgp_aspath.c).  A C string is the sequence of its characters before the final NUL. */
module AsPathText {
  import opened Wrappers
  import opened Seqs
  import opened AsPath

  // ----- printing -------------------------------------------------------------------

  function Digit(d: nat): char
    requires d < 10
  {
    "0123456789"[d]
  }

  function Decimal(n: nat): (s: string)
    ensures s != []
  {
    if n < 10 then [Digit(n)] else Decimal(n / 10) + [Digit(n % 10)]
  }

  function Separator(k: SegType): char {
    if k.IsSet() then ',' else ' '
  }

  function Opening(k: SegType): char
    requires !k.AsSequence?
  {
    match k case AsSet => '{' case AsConfedSet => '[' case AsConfedSequence => '('
  }

  function Closing(k: SegType): char
    requires !k.AsSequence?
  {
    match k case AsSet => '}' case AsConfedSet => ']' case AsConfedSequence => ')'
  }

  function ListText(s: seq<Asn>, sep: char): string {
    if s == [] then ""
    else if |s| == 1 then Decimal(s[0])
    else Decimal(s[0]) + ([sep] + ListText(s[1..], sep))
  }

  function SegmentText(s: Segment): string {
    if s.kind.AsSequence? then ListText(s.asns, ' ')
    else [Opening(s.kind)] + (ListText(s.asns, Separator(s.kind)) + [Closing(s.kind)])
  }

  function PathText(p: Path): string {
    if p == [] then ""
    else if |p| == 1 then SegmentText(p[0])
    else SegmentText(p[0]) + ([' '] + PathText(p[1..]))
  }

  // ----- reading --------------------------------------------------------------------

  datatype Token = AsVal(asn: Asn) | Open(kind: SegType) | Close(kind: SegType) | Unknown

  predicate IsDigit(c: char) {
    '0' <= c <= '9'
  }

  predicate IsSeparator(c: char) {
    c == ' ' || c == ',' || c == '\t' || c == '\n' || c == '\r' || c as int == 11 || c as int == 12
  }

  function SkipSeparators(s: string): (r: string)
    ensures |r| <= |s|
    ensures r != [] ==> !IsSeparator(r[0])
  {
    if s != [] && IsSeparator(s[0]) then SkipSeparators(s[1..]) else s
  }

  /** Reads digits into a 32-bit accumulator. */
  function ScanNumber(acc: Asn, s: string): (r: (Asn, string))
    ensures |r.1| <= |s|
    decreases s
  {
    if s != [] && IsDigit(s[0]) then
      var a: int := acc;
      ScanNumber((a * 10 + (s[0] as int - '0' as int)) % 0x1_0000_0000, s[1..])
    else (acc, s)
  }

  function Bracket(c: char): Option<Token> {
    if c == '{' then Some(Open(AsSet))
    else if c == '}' then Some(Close(AsSet))
    else if c == '(' then Some(Open(AsConfedSequence))
    else if c == ')' then Some(Close(AsConfedSequence))
    else if c == '[' then Some(Open(AsConfedSet))
    else if c == ']' then Some(Close(AsConfedSet))
    else None
  }

  /** The next token and the text behind it; None at the end of the string. */
  function GetToken(s: string): (r: Option<(Token, string)>)
    ensures r.Some? && !r.value.0.Unknown? ==> |r.value.1| < |s|
  {
    var t := SkipSeparators(s);
    if t == [] then None
    else if Bracket(t[0]).Some? then Some((Bracket(t[0]).value, t[1..]))
    else if IsDigit(t[0]) then
      var n := ScanNumber(t[0] as int - '0' as int, t[1..]);
      Some((AsVal(n.0), n.1))
    else Some((Unknown, t))
  }

  function Tokens(s: string): seq<Token>
    decreases |s|
  {
    match GetToken(s)
    case None => []
    case Some((tok, rest)) => if tok.Unknown? then [Unknown] else [tok] + Tokens(rest)
  }

  datatype Parser = Parser(segs: Path, kind: SegType, need: bool)

  function AppendAsn(p: Path, a: Asn): Path {
    if p == [] then p else p[..|p| - 1] + [p[|p| - 1].(asns := p[|p| - 1].asns + [a])]
  }

  function Step(st: Parser, tok: Token): Parser
    requires !tok.Unknown?
  {
    match tok
    case AsVal(a) =>
      var segs := if st.need then st.segs + [Segment(st.kind, [])] else st.segs;
      Parser(AppendAsn(segs, a), st.kind, false)
    case Open(k) => Parser(st.segs + [Segment(k, [])], k, false)
    case Close(_) => Parser(st.segs, AsSequence, true)
  }

  predicate Known(toks: seq<Token>) {
    forall i :: 0 <= i < |toks| ==> !toks[i].Unknown?
  }

  function Run(st: Parser, toks: seq<Token>): Parser
    requires Known(toks)
    decreases toks
  {
    if toks == [] then st else Run(Step(st, toks[0]), toks[1..])
  }

  const START := Parser([], AsSequence, true)

  function ParseText(s: string): Option<Path> {
    if Known(Tokens(s)) then Some(Run(START, Tokens(s)).segs) else None
  }

  method ReadToken(s: string) returns (r: Option<(Token, string)>)
    ensures r == GetToken(s)
  {
    var p := s;
    while p != [] && IsSeparator(p[0])
      invariant SkipSeparators(p) == SkipSeparators(s)
      decreases p
    {
      p := p[1..];
    }
    if p == [] {
      return None;
    }
    if Bracket(p[0]).Some? {
      return Some((Bracket(p[0]).value, p[1..]));
    }
    if IsDigit(p[0]) {
      var n: Asn := p[0] as int - '0' as int;
      ghost var whole := ScanNumber(n, p[1..]);
      p := p[1..];
      while p != [] && IsDigit(p[0])
        invariant ScanNumber(n, p) == whole
        decreases p
      {
        var a: int := n;
        n := (a * 10 + (p[0] as int - '0' as int)) % 0x1_0000_0000;
        p := p[1..];
      }
      return Some((AsVal(n), p));
    }
    r := Some((Unknown, p));
  }

  lemma KnownCons(tok: Token, rest: seq<Token>)
    ensures Known([tok] + rest) <==> !tok.Unknown? && Known(rest)
  {
    var t := [tok] + rest;
    assert t[0] == tok && t[1..] == rest;
    assert forall i :: 0 <= i < |rest| ==> t[i + 1] == rest[i];
  }

  /** `aspath_str2aspath`. */
  method ParseString(s: string) returns (r: Option<Path>)
    ensures r == ParseText(s)
  {
    hide GetToken;
    var str, st := s, START;
    while true
      invariant Known(Tokens(str)) <==> Known(Tokens(s))
      invariant Known(Tokens(s)) ==> Run(st, Tokens(str)) == Run(START, Tokens(s))
      decreases |str|
    {
      var next := ReadToken(str);
      if next.None? {
        break;
      }
      var (tok, rest) := next.value;
      KnownCons(tok, Tokens(rest));
      if tok.Unknown? {
        assert Tokens(str) == [Unknown];
        assert Tokens(str)[0].Unknown?;
        return None;
      }
      assert ([tok] + Tokens(rest))[1..] == Tokens(rest);
      st := Step(st, tok);
      str := rest;
    }
    r := Some(st.segs);
  }

  // ----- lexing what was printed ----------------------------------------------------

  predicate StartsClean(t: string) {
    t == [] || !IsDigit(t[0])
  }

  lemma DigitValue(d: nat)
    requires d < 10
    ensures IsDigit(Digit(d)) && Digit(d) as int - '0' as int == d
  {
  }

  lemma ScanDigit(acc: Asn, d: nat, t: string)
    requires d < 10 && acc * 10 + d < 0x1_0000_0000
    ensures ScanNumber(acc, [Digit(d)] + t) == ScanNumber(acc * 10 + d, t)
  {
    DigitValue(d);
    assert ([Digit(d)] + t)[1..] == t;
  }

  lemma {:induction false} ScanDecimal(n: Asn, t: string)
    ensures ScanNumber(0, Decimal(n) + t) == ScanNumber(n, t)
    decreases n
  {
    hide ScanNumber;
    if n < 10 {
      ScanDigit(0, n, t);
    } else {
      var q, d := n / 10, n % 10;
      var u := [Digit(d)] + t;
      ScanDecimal(q, u);
      AppendAssoc(Decimal(q), [Digit(d)], t);
      assert n == q * 10 + d;
      ScanDigit(q, d, t);
    }
  }

  lemma {:induction false} DecimalDigit(n: nat)
    ensures IsDigit(Decimal(n)[0])
  {
    if n >= 10 {
      DecimalDigit(n / 10);
    }
  }

  lemma LexNumber(n: Asn, t: string)
    requires StartsClean(t)
    ensures Tokens(Decimal(n) + t) == [AsVal(n)] + Tokens(t)
  {
    hide Decimal;
    var s := Decimal(n) + t;
    DecimalDigit(n);
    ScanDecimal(n, t);
    assert s[0] == Decimal(n)[0];
    assert SkipSeparators(s) == s;
    assert Bracket(s[0]).None?;
    var d: Asn := s[0] as int - '0' as int;
    assert ScanNumber(0, s) == ScanNumber(d, s[1..]);
  }

  lemma LexSeparator(c: char, t: string)
    requires IsSeparator(c)
    ensures Tokens([c] + t) == Tokens(t)
  {
    assert ([c] + t)[1..] == t;
    assert SkipSeparators([c] + t) == SkipSeparators(t);
    assert GetToken([c] + t) == GetToken(t);
  }

  lemma LexBracket(c: char, t: string)
    requires Bracket(c).Some?
    ensures Tokens([c] + t) == [Bracket(c).value] + Tokens(t)
  {
    var s := [c] + t;
    assert SkipSeparators(s) == s;
    assert s[1..] == t;
  }

  function Values(s: seq<Asn>): seq<Token> {
    if s == [] then [] else [AsVal(s[0])] + Values(s[1..])
  }

  lemma {:induction false} LexList(s: seq<Asn>, sep: char, t: string)
    requires StartsClean(t) && IsSeparator(sep)
    ensures Tokens(ListText(s, sep) + t) == Values(s) + Tokens(t)
  {
    hide Tokens;
    if s == [] {
      assert ListText(s, sep) + t == t;
      assert Values(s) + Tokens(t) == Tokens(t);
    } else if |s| == 1 {
      LexNumber(s[0], t);
      assert s[1..] == [];
    } else {
      var more := ListText(s[1..], sep) + t;
      assert ListText(s, sep) + t == Decimal(s[0]) + ([sep] + more);
      LexNumber(s[0], [sep] + more);
      LexSeparator(sep, more);
      LexList(s[1..], sep, t);
      AppendAssoc([AsVal(s[0])], Values(s[1..]), Tokens(t));
    }
  }

  function SegmentTokens(s: Segment): seq<Token> {
    if s.kind.AsSequence? then Values(s.asns)
    else [Open(s.kind)] + (Values(s.asns) + [Close(s.kind)])
  }

  lemma LexSegment(s: Segment, t: string)
    requires StartsClean(t)
    ensures Tokens(SegmentText(s) + t) == SegmentTokens(s) + Tokens(t)
  {
    hide Tokens, ListText, Values;
    if s.kind.AsSequence? {
      LexList(s.asns, ' ', t);
    } else {
      var sep, tail := Separator(s.kind), [Closing(s.kind)] + t;
      var list := ListText(s.asns, sep);
      assert SegmentText(s) + t == [Opening(s.kind)] + (list + tail);
      LexBracket(Opening(s.kind), list + tail);
      LexList(s.asns, sep, tail);
      LexBracket(Closing(s.kind), t);
      assert [Open(s.kind)] + (Values(s.asns) + ([Close(s.kind)] + Tokens(t))) == SegmentTokens(s) + Tokens(t);
    }
  }

  function PathTokens(p: Path): seq<Token> {
    if p == [] then [] else SegmentTokens(p[0]) + PathTokens(p[1..])
  }

  lemma {:induction false} LexPath(p: Path)
    ensures Tokens(PathText(p)) == PathTokens(p)
  {
    hide SegmentText, SegmentTokens;
    if |p| == 1 {
      LexSegment(p[0], "");
      assert SegmentText(p[0]) + "" == SegmentText(p[0]);
      assert p[1..] == [];
    } else if |p| > 1 {
      var more := PathText(p[1..]);
      LexSegment(p[0], [' '] + more);
      LexSeparator(' ', more);
      LexPath(p[1..]);
    }
  }

  // ----- parsing what was lexed -----------------------------------------------------

  predicate EndsInSequence(p: Path) {
    p != [] && p[|p| - 1].kind.AsSequence?
  }

  /** How printed segments accumulate on the reading side: an AS_SEQUENCE runs into the one
      before it, and an empty one leaves no trace. */
  function AddSegment(acc: Path, s: Segment): Path {
    if !s.kind.AsSequence? then acc + [s]
    else if s.asns == [] then acc
    else if EndsInSequence(acc) then acc[..|acc| - 1] + [Segment(AsSequence, acc[|acc| - 1].asns + s.asns)]
    else acc + [s]
  }

  function AddSegments(acc: Path, p: Path): Path
    decreases p
  {
    if p == [] then acc else AddSegments(AddSegment(acc, p[0]), p[1..])
  }

  function TextForm(p: Path): Path {
    AddSegments([], p)
  }

  function Ready(acc: Path): Parser {
    Parser(acc, AsSequence, !EndsInSequence(acc))
  }

  lemma {:induction false} ValuesKnown(s: seq<Asn>)
    ensures Known(Values(s))
  {
    if s != [] {
      ValuesKnown(s[1..]);
      KnownCons(AsVal(s[0]), Values(s[1..]));
    }
  }

  lemma KnownConcat(a: seq<Token>, b: seq<Token>)
    ensures Known(a + b) <==> Known(a) && Known(b)
  {
    assert forall i :: 0 <= i < |a| ==> (a + b)[i] == a[i];
    assert forall i :: 0 <= i < |b| ==> (a + b)[|a| + i] == b[i];
  }

  lemma SegmentKnown(s: Segment)
    ensures Known(SegmentTokens(s))
  {
    ValuesKnown(s.asns);
    KnownConcat(Values(s.asns), [Close(s.kind)]);
    KnownCons(Open(s.kind), Values(s.asns) + [Close(s.kind)]);
  }

  lemma {:induction false} PathKnown(p: Path)
    ensures Known(PathTokens(p))
  {
    if p != [] {
      SegmentKnown(p[0]);
      PathKnown(p[1..]);
      KnownConcat(SegmentTokens(p[0]), PathTokens(p[1..]));
    }
  }

  lemma {:induction false} RunConcat(st: Parser, a: seq<Token>, b: seq<Token>)
    requires Known(a) && Known(b)
    ensures Known(a + b)
    ensures Run(st, a + b) == Run(Run(st, a), b)
    decreases a
  {
    KnownConcat(a, b);
    if a == [] {
      assert a + b == b;
    } else {
      RunConcat(Step(st, a[0]), a[1..], b);
      assert (a + b)[1..] == a[1..] + b;
    }
  }

  lemma AppendToLast(acc: Path, s: Segment, a: Asn)
    ensures AppendAsn(acc + [s], a) == acc + [s.(asns := s.asns + [a])]
  {
    var p := acc + [s];
    assert p[..|p| - 1] == acc;
  }

  /** Numbers read inside a segment are appended to it. */
  lemma {:induction false} RunValues(acc: Path, s: Segment, k: SegType, more: seq<Asn>)
    ensures Known(Values(more))
    ensures Run(Parser(acc + [s], k, false), Values(more))
         == Parser(acc + [s.(asns := s.asns + more)], k, false)
    decreases more
  {
    ValuesKnown(more);
    if more == [] {
      assert s.asns + more == s.asns;
    } else {
      var t := s.(asns := s.asns + [more[0]]);
      AppendToLast(acc, s, more[0]);
      RunValues(acc, t, k, more[1..]);
      assert ([AsVal(more[0])] + Values(more[1..]))[1..] == Values(more[1..]);
      assert s.asns + [more[0]] + more[1..] == s.asns + more;
    }
  }

  /** The first number after something else opens a new AS_SEQUENCE. */
  lemma RunFresh(acc: Path, s: seq<Asn>)
    requires s != [] && Known(Values(s))
    ensures Run(Parser(acc, AsSequence, true), Values(s)) == Parser(acc + [Segment(AsSequence, s)], AsSequence, false)
  {
    var open := Parser(acc + [Segment(AsSequence, [])], AsSequence, false);
    RunValues(acc, Segment(AsSequence, []), AsSequence, s);
    assert [] + s == s;
    hide AppendAsn;
    assert Values(s)[0] == AsVal(s[0]);
    assert Step(Parser(acc, AsSequence, true), AsVal(s[0])) == Step(open, AsVal(s[0]));
  }

  lemma ReadyAfter(front: Path, s: Segment)
    requires s.kind.AsSequence?
    ensures EndsInSequence(front + [s]) && Ready(front + [s]) == Parser(front + [s], AsSequence, false)
  {
  }

  /** Numbers after an AS_SEQUENCE run into it. */
  lemma RunJoined(front: Path, last: Segment, s: seq<Asn>)
    requires last.kind.AsSequence? && s != [] && Known(Values(s))
    ensures Run(Ready(front + [last]), Values(s)) == Ready(AddSegment(front + [last], Segment(AsSequence, s)))
  {
    hide Run, Known, Values, Ready;
    var joined := Segment(AsSequence, last.asns + s);
    assert (front + [last])[..|front|] == front;
    assert AddSegment(front + [last], Segment(AsSequence, s)) == front + [joined];
    ReadyAfter(front, last);
    ReadyAfter(front, joined);
    RunValues(front, last, AsSequence, s);
  }

  lemma RunSequence(acc: Path, s: seq<Asn>)
    ensures Known(Values(s))
    ensures Run(Ready(acc), Values(s)) == Ready(AddSegment(acc, Segment(AsSequence, s)))
  {
    ValuesKnown(s);
    if s != [] {
      hide Run, Known, Values;
      if EndsInSequence(acc) {
        assert acc == acc[..|acc| - 1] + [acc[|acc| - 1]];
        RunJoined(acc[..|acc| - 1], acc[|acc| - 1], s);
      } else {
        RunFresh(acc, s);
        ReadyAfter(acc, Segment(AsSequence, s));
      }
    }
  }

  lemma RunBracketed(acc: Path, s: Segment)
    requires !s.kind.AsSequence?
    ensures Known(SegmentTokens(s))
    ensures Run(Ready(acc), SegmentTokens(s)) == Ready(AddSegment(acc, s))
  {
    SegmentKnown(s);
    ValuesKnown(s.asns);
    var v, close := Values(s.asns), [Close(s.kind)];
    var inside := Parser(acc + [Segment(s.kind, [])], s.kind, false);
    KnownConcat(v, close);
    assert ([Open(s.kind)] + (v + close))[1..] == v + close;
    assert Run(Ready(acc), SegmentTokens(s)) == Run(inside, v + close);
    RunValues(acc, Segment(s.kind, []), s.kind, s.asns);
    assert [] + s.asns == s.asns;
    RunConcat(inside, v, close);
    assert close[1..] == [];
    assert Run(Parser(acc + [s], s.kind, false), close) == Parser(acc + [s], AsSequence, true);
  }

  lemma {:induction false} RunPath(acc: Path, p: Path)
    ensures Known(PathTokens(p))
    ensures Run(Ready(acc), PathTokens(p)) == Ready(AddSegments(acc, p))
    decreases p
  {
    PathKnown(p);
    if p != [] {
      SegmentKnown(p[0]);
      PathKnown(p[1..]);
      if p[0].kind.AsSequence? {
        RunSequence(acc, p[0].asns);
      } else {
        RunBracketed(acc, p[0]);
      }
      hide AddSegment;
      hide SegmentTokens;
      RunConcat(Ready(acc), SegmentTokens(p[0]), PathTokens(p[1..]));
      RunPath(AddSegment(acc, p[0]), p[1..]);
    }
  }

  // ----- round trip -----------------------------------------------------------------

  /** What text can express: no empty AS_SEQUENCE and no two of them side by side. */
  predicate TextStable(p: Path) {
    && (forall i :: 0 <= i < |p| && p[i].kind.AsSequence? ==> p[i].asns != [])
    && (forall i :: 0 < i < |p| ==> !(p[i - 1].kind.AsSequence? && p[i].kind.AsSequence?))
  }

  lemma AddSegmentStable(acc: Path, s: Segment)
    requires TextStable(acc)
    ensures TextStable(AddSegment(acc, s))
    ensures TextStable(acc + [s]) ==> AddSegment(acc, s) == acc + [s]
  {
    var r := AddSegment(acc, s);
    var n := |acc|;
    assert forall i :: 0 <= i < n ==> (acc + [s])[i] == acc[i];
    assert (acc + [s])[n] == s;
    assert forall i :: 0 <= i < n - 1 && i < |r| ==> r[i] == acc[i];
  }

  lemma {:induction false} AddSegmentsStable(acc: Path, p: Path)
    requires TextStable(acc)
    ensures TextStable(AddSegments(acc, p))
    ensures TextStable(acc + p) ==> AddSegments(acc, p) == acc + p
    decreases p
  {
    if p == [] {
      assert acc + p == acc;
    } else {
      AddSegmentStable(acc, p[0]);
      AddSegmentsStable(AddSegment(acc, p[0]), p[1..]);
      assert p == [p[0]] + p[1..];
      AppendCons(acc, p[0], p[1..]);
      if TextStable(acc + p) {
        StablePrefix(acc + p, |acc| + 1);
        assert (acc + p)[..|acc| + 1] == acc + [p[0]];
      }
    }
  }

  lemma StablePrefix(p: Path, n: nat)
    requires TextStable(p) && n <= |p|
    ensures TextStable(p[..n])
  {
  }

  /** Main result, for every path: reading back the printed text gives the text form, which is
      the path itself exactly when the path is one that text can express. */
  lemma TextRoundTrip(p: Path)
    ensures ParseText(PathText(p)) == Some(TextForm(p))
    ensures TextForm(p) == p <==> TextStable(p)
  {
    LexPath(p);
    RunPath([], p);
    assert Ready([]) == START;
    AddSegmentsStable([], p);
    assert [] + p == p;
  }

  // ----- the buffer -----------------------------------------------------------------

  /** snprintf at the end of a buffer of `size` bytes: cuts what does not fit. */
  function Snprintf(buf: string, size: nat, text: string): string
    requires |buf| < size
  {
    if |buf| + |text| < size then buf + text else buf + text[..size - |buf| - 1]
  }

  lemma {:induction false} DecimalWidth(n: nat, k: nat)
    requires n < Pow10(k) && k > 0
    ensures |Decimal(n)| <= k
  {
    if n >= 10 {
      DecimalWidth(n / 10, k - 1);
    }
  }

  function Pow10(k: nat): nat {
    if k == 0 then 1 else 10 * Pow10(k - 1)
  }

  lemma AsnWidth(n: Asn)
    ensures |Decimal(n)| <= 10
  {
    assert Pow10(10) == 10_000_000_000 by {
      assert Pow10(2) == 100;
      assert Pow10(4) == 10_000;
      assert Pow10(6) == 1_000_000;
      assert Pow10(8) == 100_000_000;
    }
    DecimalWidth(n, 10);
  }

  function CountAsns(p: Path): nat {
    if p == [] then 0 else |p[0].asns| + CountAsns(p[1..])
  }

  /** Writes the numbers of one segment; the room reserved for the segment is never exceeded. */
  method PrintList(given: string, s: seq<Asn>, sep: char, size: nat) returns (buf: string)
    requires |given| + 11 * |s| < size
    ensures buf == given + ListText(s, sep)
    ensures |buf| <= |given| + 11 * |s|
  {
    buf := given;
    var i := 0;
    ghost var todo := s;
    while i < |s|
      invariant i <= |s| && todo == s[i..]
      invariant buf + ListText(todo, sep) == given + ListText(s, sep)
      invariant |buf| <= |given| + 11 * i
    {
      AsnWidth(s[i]);
      AppendAssoc(buf, Decimal(s[i]), [sep] + ListText(todo[1..], sep));
      AppendAssoc(buf + Decimal(s[i]), [sep], ListText(todo[1..], sep));
      assert |todo| == 1 ==> todo[1..] == [];
      buf := Snprintf(buf, size, Decimal(s[i]));
      if i < |s| - 1 {
        buf := Snprintf(buf, size, [sep]);
      }
      i := i + 1;
      todo := todo[1..];
    }
  }

  /** A segment text behind `given`, piece by piece. */
  function Pieces(given: string, s: Segment): string {
    var list := ListText(s.asns, Separator(s.kind));
    if s.kind.AsSequence? then given + list else given + [Opening(s.kind)] + list + [Closing(s.kind)]
  }

  lemma SegmentParts(given: string, s: Segment, tail: string)
    ensures given + (SegmentText(s) + tail) == Pieces(given, s) + tail
    ensures tail == "" ==> given + (SegmentText(s) + tail) == Pieces(given, s)
  {
    hide ListText;
    var list := ListText(s.asns, Separator(s.kind));
    AppendAssoc(given, SegmentText(s), tail);
    if !s.kind.AsSequence? {
      AppendAssoc(given, [Opening(s.kind)], list + [Closing(s.kind)]);
      AppendAssoc(given + [Opening(s.kind)], list, [Closing(s.kind)]);
    }
    assert tail == "" ==> Pieces(given, s) + tail == Pieces(given, s);
  }

  /** One segment with its delimiters and the space behind it. */
  method PrintSegment(given: string, s: Segment, more: bool, size: nat) returns (buf: string)
    requires |given| + 11 * |s.asns| + 4 <= size
    ensures buf == given + (SegmentText(s) + (if more then " " else ""))
    ensures |buf| < size
  {
    hide ListText, SegmentText, Opening, Closing, Separator;
    SegmentParts(given, s, if more then " " else "");
    buf := given;
    if !s.kind.AsSequence? {
      buf := Snprintf(buf, size, [Opening(s.kind)]);
    }
    buf := PrintList(buf, s.asns, Separator(s.kind), size);
    if !s.kind.AsSequence? {
      buf := Snprintf(buf, size, [Closing(s.kind)]);
    }
    if more {
      buf := Snprintf(buf, size, " ");
    }
  }

  lemma PathTextEnd()
    ensures PathText([]) == ""
  {
  }

  lemma PathTextStep(p: Path)
    requires p != []
    ensures PathText(p) == (SegmentText(p[0]) + (if |p| > 1 then " " else "")) + PathText(p[1..])
  {
    hide SegmentText;
    if |p| == 1 {
      assert p[1..] == [];
    } else {
      AppendAssoc(SegmentText(p[0]), " ", PathText(p[1..]));
    }
  }

  /** `aspath_make_str_count`: the buffer starts from a guess, grows before a segment that might
      not fit, and is never overrun, so that the final assertion of the code holds. */
  method PrintPath(p: Path) returns (str: string)
    ensures str == PathText(p)
  {
    hide PathText, SegmentText;
    str := "";
    PathTextEnd();
    if p == [] {
      return;
    }
    var guess := CountAsns(p) * 11 + 2 + 1;
    var size := if guess > 32 then guess else 32;
    var seg := p;
    while seg != []
      invariant |str| < size
      invariant str + PathText(seg) == PathText(p)
      decreases |seg|
    {
      var need := |seg[0].asns| * 11 + 2 + 1 + 1;
      if |str| + need > size {
        size := |str| + need;
      }
      PathTextStep(seg);
      AppendAssoc(str, SegmentText(seg[0]) + (if |seg| > 1 then " " else ""), PathText(seg[1..]));
      str := PrintSegment(str, seg[0], |seg| > 1, size);
      seg := seg[1..];
    }
    assert |str| < size;
    assert str + "" == str;
  }
}
