/** Sequence numbers modulo 2^16 (babeld/util.h). */
module Seqno {

  const MODULUS: int := 0x1_0000
  const HALF: int := 0x8000

  predicate Is16(s: int) {
    0 <= s < MODULUS
  }

  /** seqno_compare: the sign of the circular difference, read from its top bit. */
  function SeqnoCompare(s1: int, s2: int): int
    requires Is16(s1) && Is16(s2)
  {
    if s1 == s2 then 0 else if (s2 - s1) % MODULUS >= HALF then 1 else -1
  }

  /** seqno_minus: the circular difference as a signed 16-bit number. */
  function SeqnoMinus(s1: int, s2: int): int
    requires Is16(s1) && Is16(s2)
  {
    var d := (s1 - s2) % MODULUS;
    if d >= HALF then d - MODULUS else d
  }

  function SeqnoPlus(s: int, plus: int): (r: int)
    requires Is16(s)
    ensures Is16(r)
  {
    (s + plus) % MODULUS
  }

  /** The 16 bits of an unbounded counter that go over the wire. */
  function Wire(counter: int): (s: int)
    ensures Is16(s)
  {
    counter % MODULUS
  }

  function Sign(x: int): int {
    if x < 0 then -1 else if x > 0 then 1 else 0
  }

  /** Comparison is antisymmetric for all pairs but those exactly half a circle apart. */
  lemma CompareAntisymmetric(s1: int, s2: int)
    requires Is16(s1) && Is16(s2)
    ensures SeqnoCompare(s1, s2) == -SeqnoCompare(s2, s1) <==> (s2 - s1) % MODULUS != HALF
  {
  }

  /** Counters less than half a circle apart compare on the wire as they do unbounded. */
  lemma WireCompare(a: int, b: int)
    requires -HALF < a - b < HALF
    ensures SeqnoCompare(Wire(a), Wire(b)) == Sign(a - b)
    ensures SeqnoMinus(Wire(a), Wire(b)) == a - b
  {
    var q, r := a / MODULUS, b / MODULUS;
    assert Wire(a) == a - q * MODULUS && Wire(b) == b - r * MODULUS;
    assert q == r || q == r + 1 || q == r - 1;
    assert (Wire(b) - Wire(a)) % MODULUS == (b - a) % MODULUS;
    assert (Wire(a) - Wire(b)) % MODULUS == (a - b) % MODULUS;
  }

  lemma WirePlus(a: int, k: int)
    ensures SeqnoPlus(Wire(a), k) == Wire(a + k)
  {
  }
}
