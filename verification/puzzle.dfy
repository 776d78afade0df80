/** The proof-of-work puzzle: a proof answers `lastProof` when the digest of the two
    numbers written in decimal one after the other starts with four zero characters.
    The search tries 0, 1, 2, ... in turn. */
module Puzzle {
  import opened Hashing

  /** Required digest prefix: four leading zero hex digits. */
  const Target: string := "0000"

  predicate IsDigits(s: string)
  {
    forall i :: 0 <= i < |s| ==> '0' <= s[i] <= '9'
  }

  function Digit(d: nat): (ch: char)
    requires d < 10
    ensures '0' <= ch <= '9'
  {
    (48 + d) as char
  }

  /** Decimal notation of a natural number, most significant digit first. */
  function NatDecimal(n: nat): (s: string)
    ensures |s| > 0 && IsDigits(s)
    ensures s[0] == '0' ==> n == 0 && s == "0"
    decreases n
  {
    if n < 10 then [Digit(n)] else NatDecimal(n / 10) + [Digit(n % 10)]
  }

  /** Python's `str` of an integer: an optional minus sign and the digits. */
  function Decimal(n: int): (s: string)
    ensures |s| > 0
    ensures s[0] == '-' <==> n < 0
  {
    if n < 0 then "-" + NatDecimal(-n) else NatDecimal(n)
  }

  /** The number a string of digits denotes; the reading side of `NatDecimal`. */
  function DigitsValue(s: string): nat
    requires IsDigits(s)
    decreases |s|
  {
    if |s| == 0 then 0 else 10 * DigitsValue(s[..|s| - 1]) + (s[|s| - 1] as int - 48)
  }

  lemma {:induction false} NatDecimalRoundTrip(n: nat)
    ensures DigitsValue(NatDecimal(n)) == n
    decreases n
  {
    if n >= 10 {
      NatDecimalRoundTrip(n / 10);
      var s := NatDecimal(n);
      assert s[..|s| - 1] == NatDecimal(n / 10);
    }
  }

  /** Different integers are written differently, so the puzzle text determines
      each number once the split point is known. */
  lemma DecimalInjective(a: int, b: int)
    requires Decimal(a) == Decimal(b)
    ensures a == b
  {
    if a < 0 {
      assert b < 0;
      var sa, sb := NatDecimal(-a), NatDecimal(-b);
      assert Decimal(a) == "-" + sa && Decimal(b) == "-" + sb;
      assert sa == ("-" + sa)[1..] && sb == ("-" + sb)[1..];
      NatDecimalRoundTrip(-a);
      NatDecimalRoundTrip(-b);
    } else {
      assert b >= 0;
      NatDecimalRoundTrip(a);
      NatDecimalRoundTrip(b);
    }
  }

  predicate MeetsTarget(digest: string)
  {
    |digest| >= |Target| && digest[..|Target|] == Target
  }

  /** The puzzle: hash the decimal text of `lastProof` followed by that of `proof`. */
  predicate ValidProof(c: Crypto, lastProof: int, proof: int)
  {
    MeetsTarget(c.sha256Hex(Decimal(lastProof) + Decimal(proof)))
  }

  /** The puzzle only sees the concatenated text: the answer 3 to 12 and the
      answer 23 to 1 are the same puzzle, whatever the digest function. */
  lemma PuzzleSeesOnlyConcatenation(c: Crypto)
    ensures ValidProof(c, 12, 3) == ValidProof(c, 1, 23)
    ensures Decimal(12) + Decimal(3) == Decimal(1) + Decimal(23)
  {
    assert Decimal(12) == "12" && Decimal(3) == "3";
    assert Decimal(1) == "1" && Decimal(23) == "23";
    assert Decimal(12) + Decimal(3) == Decimal(1) + Decimal(23);
  }

  /** Exhaustive ascending search from 0 for a proof answering `lastProof`.
      `bound` is a known answer; it only serves to show that the search stops. */
  method ProofOfWork(c: Crypto, lastProof: int, ghost bound: nat) returns (proof: nat)
    requires ValidProof(c, lastProof, bound)
    ensures ValidProof(c, lastProof, proof)
    ensures forall q: nat :: q < proof ==> !ValidProof(c, lastProof, q)
    ensures proof <= bound
  {
    proof := 0;
    while !ValidProof(c, lastProof, proof)
      invariant proof <= bound
      invariant forall q: nat :: q < proof ==> !ValidProof(c, lastProof, q)
      decreases bound - proof
    {
      proof := proof + 1;
    }
  }

  /** The smallest answer is unique, so the search result is fully determined by
      `lastProof` and the digest function. */
  lemma MinimalProofUnique(c: Crypto, lastProof: int, p: nat, q: nat)
    requires ValidProof(c, lastProof, p) && forall r: nat :: r < p ==> !ValidProof(c, lastProof, r)
    requires ValidProof(c, lastProof, q) && forall r: nat :: r < q ==> !ValidProof(c, lastProof, r)
    ensures p == q
  {
  }
}
