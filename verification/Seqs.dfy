/** Facts about sequences that the loops share. */
module Seqs {

  /** Moving the head of the second sequence to the end of the first. */
  lemma AppendCons<T>(a: seq<T>, x: T, b: seq<T>)
    ensures a + ([x] + b) == (a + [x]) + b
  {
  }

  lemma AppendAssoc<T>(a: seq<T>, b: seq<T>, c: seq<T>)
    ensures a + (b + c) == (a + b) + c
  {
  }

  /** Two sequences made of parts none of which is longer than its counterpart. */
  lemma EqualParts<T>(a: seq<T>, b: seq<T>, x: seq<T>, y: seq<T>)
    requires |a| <= |x| && |b| <= |y|
    ensures a + b == x + y <==> a == x && b == y
  {
    if a + b == x + y {
      assert |a| == |x|;
      assert (a + b)[..|a|] == a && (a + b)[|a|..] == b;
      assert (x + y)[..|a|] == x && (x + y)[|a|..] == y;
    }
  }
}
