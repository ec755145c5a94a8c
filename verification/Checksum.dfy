/**
  The internet checksum as ethlib computes and verifies it (c/ethlib/ipv4.c,
  c/ethlib/udp.c): a 32-bit sum of big-endian half-words, folded three times.
 */
module Checksum {
  import opened Arith
  import opened Bytes
  import opened EthBuffer

  /** Sum of n half-words from byte `from` on. */
  function Sum(b: seq<byte>, from: nat, n: nat): nat
    requires from + 2 * n <= |b|
  {
    if n == 0 then 0 else Sum(b, from, n - 1) + Half(b, from + 2 * n - 2)
  }

  lemma {:induction false} SumSplit(b: seq<byte>, from: nat, m: nat, n: nat)
    requires from + 2 * (m + n) <= |b|
    ensures Sum(b, from, m + n) == Sum(b, from, m) + Sum(b, from + 2 * m, n)
    decreases n
  {
    if n > 0 {
      SumSplit(b, from, m, n - 1);
      assert m + n - 1 == m + (n - 1);
    }
  }

  /** The sum depends on the bytes only, not on where they are. */
  lemma {:induction false} SumSame(b: seq<byte>, from: nat, c: seq<byte>, at: nat, n: nat)
    requires from + 2 * n <= |b| && at + 2 * n <= |c|
    requires b[from..from + 2 * n] == c[at..at + 2 * n]
    ensures Sum(b, from, n) == Sum(c, at, n)
    decreases n
  {
    if n > 0 {
      var m := n - 1;
      SameSlice(b, from, c, at, 2 * n, 0, 2 * m);
      SameByte(b, from, c, at, 2 * n, 2 * m);
      SameByte(b, from, c, at, 2 * n, 2 * m + 1);
      SumSame(b, from, c, at, m);
    }
  }

  lemma {:induction false} SumBound(b: seq<byte>, from: nat, n: nat)
    requires from + 2 * n <= |b|
    ensures Sum(b, from, n) <= n * 0xFFFF
    decreases n
  {
    if n > 0 { SumBound(b, from, n - 1); }
  }

  /** Half-word k on its own. */
  lemma SumField(b: seq<byte>, from: nat, n: nat, k: nat)
    requires from + 2 * n <= |b| && k < n
    ensures Sum(b, from, n) == Sum(b, from, k) + Half(b, from + 2 * k) + Sum(b, from + 2 * k + 2, n - k - 1)
  {
    SumSplit(b, from, k + 1, n - k - 1);
  }

  function FoldOnce(sum: nat): nat {
    if sum >= 0x1_0000 then sum % 0x1_0000 + sum / 0x1_0000 else sum
  }

  function Fold3(sum: nat): nat { FoldOnce(FoldOnce(FoldOnce(sum))) }

  /** The complement that is stored or compared with zero. */
  function Complement(sum: nat): int { 0xFFFF - Fold3(sum) }

  lemma FoldOnceCongruent(sum: nat)
    ensures FoldOnce(sum) % 0xFFFF == sum % 0xFFFF
    ensures FoldOnce(sum) == 0 <==> sum == 0
    ensures sum < U32 ==> FoldOnce(sum) <= 0x1_FFFE
    ensures sum <= 0x1_FFFE ==> FoldOnce(sum) <= 0xFFFF
  {
    if sum >= 0x1_0000 {
      var q, r := sum / 0x1_0000, sum % 0x1_0000;
      assert sum == q * 0xFFFF + (q + r);
      ModShift(q + r, q);
    }
  }

  lemma ModShift(x: nat, q: nat)
    ensures (q * 0xFFFF + x) % 0xFFFF == x % 0xFFFF
  {
    DivideBy(q * 0xFFFF + x, q + x / 0xFFFF, x % 0xFFFF, 0xFFFF);
  }

  /** Three folds bring any 32-bit sum to 16 bits without changing it modulo 65535, and zero
      comes from zero only. */
  lemma FoldCongruent(sum: nat)
    requires sum < U32
    ensures Fold3(sum) <= 0xFFFF && Fold3(sum) % 0xFFFF == sum % 0xFFFF
    ensures Fold3(sum) == 0 <==> sum == 0
  {
    FoldOnceCongruent(sum);
    FoldOnceCongruent(FoldOnce(sum));
    FoldOnceCongruent(FoldOnce(FoldOnce(sum)));
  }

  /** What it means for a sum that includes its checksum to be right. */
  ghost predicate Good(sum: nat) { sum > 0 && sum % 0xFFFF == 0 }

  /** The verifiers' test. */
  lemma VerifyMeansGood(sum: nat)
    requires sum < U32
    ensures Complement(sum) == 0 <==> Good(sum)
  {
    FoldCongruent(sum);
  }

  /** Adding the complement of a non-zero sum to it makes it good. */
  lemma ComplementMakesGood(sum: nat)
    requires 0 < sum < U32
    ensures 0 <= Complement(sum) <= 0xFFFF && Good(sum + Complement(sum))
  {
    FoldCongruent(sum);
    var f := Fold3(sum);
    SameResidue(sum, f, 0xFFFF - f);
  }

  lemma SameResidue(a: nat, b: nat, c: nat)
    requires a % 0xFFFF == b % 0xFFFF && (b + c) % 0xFFFF == 0
    ensures (a + c) % 0xFFFF == 0
  {
    var qa, qb, q := a / 0xFFFF, b / 0xFFFF, (b + c) / 0xFFFF;
    assert a + c == (qa - qb + q) * 0xFFFF;
    DivideBy(a + c, qa - qb + q, 0, 0xFFFF);
  }

  /** The sum that ipv4_compute_checksum and udp_compute_checksum fold: the high byte of the
      stored field is taken out, but the low byte is added once more. */
  function WithoutField(sum: nat, hi: byte, lo: byte): int { sum - hi * 256 + lo }

  /** "Ignores the checksum field" holds exactly for fields whose low byte is zero. */
  lemma IgnoresFieldIff(rest: nat, hi: byte, lo: byte)
    requires rest + Pair(hi, lo) + lo < U32
    ensures WithoutField(rest + Pair(hi, lo), hi, lo) >= 0
    ensures Complement(WithoutField(rest + Pair(hi, lo), hi, lo)) == Complement(rest) <==> lo == 0
  {
    FoldCongruent(rest);
    FoldCongruent(rest + 2 * lo);
    if lo > 0 && Fold3(rest + 2 * lo) == Fold3(rest) {
      NoSmallShift(rest, 2 * lo);
    }
  }

  lemma NoSmallShift(a: nat, k: nat)
    requires 0 < k < 0xFFFF
    ensures (a + k) % 0xFFFF != a % 0xFFFF
  {
    var r := a % 0xFFFF;
    if r + k < 0xFFFF {
      DivideBy(a + k, a / 0xFFFF, r + k, 0xFFFF);
    } else {
      DivideBy(a + k, a / 0xFFFF + 1, r + k - 0xFFFF, 0xFFFF);
    }
  }
}
