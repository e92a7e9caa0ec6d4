/** Linear-hashing address computation (ADS_set.h, h / h1 / find_idx).
    The hash value is a plain natural number supplied by the caller; the
    round number `d` and the next-to-split index `nts` are the directory's
    round state. */
module Addressing {

  /** 2^d, written `1<<d` in the source. */
  function Pow2(d: nat): (p: nat)
    ensures p >= 1
  {
    if d == 0 then 1 else 2 * Pow2(d - 1)
  }

  /** `h`: the hash reduced to the d bits of the current round. */
  function H(hash: nat, d: nat): (r: nat)
    ensures r < Pow2(d)
  {
    hash % Pow2(d)
  }

  /** `h1`: the hash reduced to d+1 bits, used for buckets already split. */
  function H1(hash: nat, d: nat): (r: nat)
    ensures r < Pow2(d + 1)
  {
    hash % Pow2(d + 1)
  }

  /** `find_idx`: d bits, or d+1 bits when the d-bit bucket has already split. */
  function FindIdx(hash: nat, d: nat, nts: nat): (r: nat)
    requires nts <= Pow2(d)
    ensures r < Pow2(d) + nts
    ensures r == H(hash, d) || (H(hash, d) < nts && r == H(hash, d) + Pow2(d))
  {
    H1Cases(hash, d);
    if H(hash, d) < nts then H1(hash, d) else H(hash, d)
  }

  /** Euclidean division is unique: any decomposition x == q*m + r with
      0 <= r < m gives the remainder. */
  lemma ModUnique(x: nat, m: nat, q: int, r: int)
    requires m > 0 && 0 <= r < m && x == q * m + r
    ensures x % m == r
  {
    var q', r' := x / m, x % m;
    assert x == q' * m + r';
    MulStep(q, q', m);
    MulStep(q', q, m);
  }

  /** A larger factor gives a product larger by at least m. */
  lemma MulStep(a: int, b: int, m: nat)
    ensures a < b ==> a * m + m <= b * m
  {
    if a < b {
      MulMono(a + 1, b, m);
      assert (a + 1) * m == a * m + m;
    }
  }

  lemma MulMono(a: int, b: int, m: nat)
    ensures a <= b ==> a * m <= b * m
  {
  }

  /** Regrouping a multiple of 2m as a multiple of m. */
  lemma Regroup(q: int, m: int)
    ensures q * (2 * m) == (2 * q) * m
    ensures (2 * q + 1) * m == (2 * q) * m + m
  {
  }

  /** The remainder modulo 2m, reduced once more modulo m. */
  lemma ModHalf(x: nat, m: nat)
    requires m > 0
    ensures x % (2 * m) < m ==> x % m == x % (2 * m)
    ensures x % (2 * m) >= m ==> x % m == x % (2 * m) - m
  {
    var q, r := x / (2 * m), x % (2 * m);
    assert x == q * (2 * m) + r;
    Regroup(q, m);
    if r < m {
      ModUnique(x, m, 2 * q, r);
    } else {
      ModUnique(x, m, 2 * q + 1, r - m);
    }
  }

  /** One more hash bit either keeps the d-bit address or adds 2^d to it. */
  lemma H1Cases(hash: nat, d: nat)
    ensures H1(hash, d) == H(hash, d) || H1(hash, d) == H(hash, d) + Pow2(d)
  {
    assert Pow2(d + 1) == 2 * Pow2(d);
    ModHalf(hash, Pow2(d));
  }

  /** Splitting bucket `nts` changes the address of exactly the keys whose
      d-bit address is `nts`; those move to `nts` or `nts + 2^d`. */
  lemma SplitReaddress(hash: nat, d: nat, nts: nat)
    requires nts < Pow2(d)
    ensures H(hash, d) != nts ==> FindIdx(hash, d, nts + 1) == FindIdx(hash, d, nts)
    ensures H(hash, d) == nts ==> FindIdx(hash, d, nts) == nts
    ensures H(hash, d) == nts ==>
      FindIdx(hash, d, nts + 1) == nts || FindIdx(hash, d, nts + 1) == nts + Pow2(d)
    ensures FindIdx(hash, d, nts) == nts ==> H(hash, d) == nts
  {
    H1Cases(hash, d);
  }

  /** Completing a round: with every d-bit bucket split, the d+1-bit
      addressing of the next round (nts = 0) gives the same index. */
  lemma RolloverReaddress(hash: nat, d: nat)
    ensures FindIdx(hash, d + 1, 0) == FindIdx(hash, d, Pow2(d))
    ensures Pow2(d + 1) + 0 == Pow2(d) + Pow2(d)
  {
  }
}
