/** The IPv4 header checksum: the one's-complement sum of RFC 1071, and the
    incremental update of RFC 1624 (section 3, Eqn. 3) with its single fold. */
module Checksum {
  import opened Egress

  const ONES: nat := 0xFFFF

  function Not(x: u16): u16 { ONES - x }

  /** One fold of a 32-bit sum. */
  function FoldOnce(sum: nat): nat { sum % 0x1_0000 + sum / 0x1_0000 }

  /** The one's-complement value of a sum: zero only for zero, else its residue modulo
      65535 taken in 1..65535. */
  function Canon(sum: nat): (r: u16)
  {
    if sum == 0 then 0 else (sum - 1) % ONES + 1
  }

  lemma CanonUnique(sum: nat, r: nat, k: int)
    requires 0 < sum && 1 <= r <= ONES && sum == r + k * ONES
    ensures Canon(sum) == r
  {
  }

  lemma FoldKeepsCanon(sum: nat)
    ensures Canon(FoldOnce(sum)) == Canon(sum)
    ensures sum >= 0x1_0000 ==> FoldOnce(sum) < sum
  {
    var q, r := sum / 0x1_0000, sum % 0x1_0000;
    assert sum == FoldOnce(sum) + q * ONES;
    if sum > 0 {
      var c := Canon(FoldOnce(sum));
      assert FoldOnce(sum) > 0;
      var k := (FoldOnce(sum) - 1) / ONES;
      assert FoldOnce(sum) == c + k * ONES;
      CanonUnique(sum, c, k + q);
    }
  }

  /** The loop `while sum >> 16 != 0`: folding to the end gives the canonical value. */
  method FoldAll(sum0: nat) returns (sum: u16)
    ensures sum == Canon(sum0)
  {
    var s := sum0;
    while s / 0x1_0000 != 0
      invariant Canon(s) == Canon(sum0)
      decreases s
    {
      FoldKeepsCanon(s);
      s := FoldOnce(s);
    }
    sum := s;
  }

  // ---------------------------------------------------------------- header words

  function Word(bytes: seq<byte>, i: nat): u16
    requires i + 1 < |bytes|
  {
    FromBe(bytes[i], bytes[i + 1])
  }

  /** Sum of the 16-bit words of the first `2 * n` bytes. */
  function WordSum(bytes: seq<byte>, n: nat): nat
    requires 2 * n <= |bytes|
  {
    if n == 0 then 0 else WordSum(bytes, n - 1) + Word(bytes, 2 * n - 2)
  }

  /** `ipv4_header_checksum`. */
  method HeaderChecksum(header: seq<byte>) returns (checksum: u16)
    requires |header| % 2 == 0
    ensures checksum == Not(Canon(WordSum(header, |header| / 2)))
  {
    var sum := 0;
    for i := 0 to |header| / 2
      invariant sum == WordSum(header, i)
    {
      sum := sum + FromBe(header[2 * i], header[2 * i + 1]);
    }
    var folded := FoldAll(sum);
    checksum := Not(folded);
  }

  /** Replacing one word changes the sum by the difference. */
  lemma {:induction false} ReplaceWordSum(a: seq<byte>, b: seq<byte>, n: nat, i: nat)
    requires |a| == |b| && 2 * n <= |a| && i < n
    requires forall k :: 0 <= k < n && k != i ==> Word(a, 2 * k) == Word(b, 2 * k)
    ensures WordSum(b, n) == WordSum(a, n) - Word(a, 2 * i) + Word(b, 2 * i)
  {
    if i < n - 1 {
      ReplaceWordSum(a, b, n - 1, i);
    } else {
      SameWords(a, b, n - 1);
    }
  }

  lemma {:induction false} SameWords(a: seq<byte>, b: seq<byte>, n: nat)
    requires |a| == |b| && 2 * n <= |a|
    requires forall k :: 0 <= k < n ==> Word(a, 2 * k) == Word(b, 2 * k)
    ensures WordSum(b, n) == WordSum(a, n)
  {
    if n > 0 {
      SameWords(a, b, n - 1);
      assert Word(a, 2 * (n - 1)) == Word(b, 2 * (n - 1));
    }
  }

  // ---------------------------------------------------------------- incremental update

  /** The three-term sum of the update, before folding. */
  function PatchSum(checksum: u16, before: u16, after: u16): nat { Not(checksum) + Not(before) + after }

  /** `ipv4_checksum_replace_word`: one fold, then truncation to 16 bits. */
  function ReplaceWord(checksum: u16, before: u16, after: u16): u16
  {
    Not(FoldOnce(PatchSum(checksum, before, after)) % 0x1_0000)
  }

  /** The sum that one fold does not bring below 2^16. */
  const CARRY: nat := 0x1FFFF

  /** For a header whose checksum is right, the incremental checksum after replacing a
      word is the recomputed one if and only if the three-term sum is not 0x1FFFF.
      `sum` is the word sum of the header without its checksum field. */
  lemma ReplaceWordExact(sum: nat, before: u16, after: u16)
    requires before <= sum && sum - before + after > 0
    ensures ReplaceWord(Not(Canon(sum)), before, after) == Not(Canon(sum - before + after))
       <==> PatchSum(Not(Canon(sum)), before, after) != CARRY
  {
    var s := PatchSum(Not(Canon(sum)), before, after);
    assert s == Canon(sum) + ONES - before + after;
    if sum == 0 {
      assert before == 0;
      PatchResidue(s, sum - before + after, 1);
    } else {
      var k := (sum - 1) / ONES;
      assert sum == Canon(sum) + k * ONES;
      PatchResidue(s, sum - before + after, 1 - k);
    }
  }

  lemma PatchResidue(s: nat, target: nat, k: int)
    requires 0 < s <= 3 * ONES && 0 < target && s == target + k * ONES
    ensures FoldOnce(s) % 0x1_0000 == Canon(target) <==> s != CARRY
  {
    assert s / 0x1_0000 <= 2;
    FoldKeepsCanon(s);
    var c := Canon(target);
    var j := (target - 1) / ONES;
    assert target == c + j * ONES;
    assert s == c + (j + k) * ONES;
    CanonUnique(s, c, j + k);
    if s != CARRY {
      assert 1 <= FoldOnce(s) <= ONES;
      CanonUnique(FoldOnce(s), FoldOnce(s), 0);
    }
  }
}
