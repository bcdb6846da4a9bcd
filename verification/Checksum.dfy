/** The one's-complement Internet checksum of RFC 1071 and its incremental update, RFC 1624 section 3. */
module Checksum {
  import opened Words

  /** Sum of the 16-bit words as the little-endian CPU loads them; an odd last byte is padded with zero. */
  function WordSum(b: seq<byte>): nat
  {
    if |b| == 0 then 0
    else if |b| == 1 then b[0]
    else Le16(b[0], b[1]) + WordSum(b[2..])
  }

  /** The same sum over words in network order, as RFC 1071 writes it. */
  function NetworkSum(b: seq<byte>): nat
  {
    if |b| == 0 then 0
    else if |b| == 1 then Be16(b[0], 0)
    else Be16(b[0], b[1]) + NetworkSum(b[2..])
  }

  /** End-around carry until the sum fits 16 bits. */
  function Fold(sum: nat): u16
    decreases sum
  {
    if sum < 0x1_0000 then sum else Fold(sum % 0x1_0000 + sum / 0x1_0000)
  }

  function Complement(x: u16): u16 { 0xFFFF - x }

  /** A checksummed block is accepted when its words, the checksum included, fold to all ones. */
  predicate Verifies(sum: nat) { Fold(sum) == 0xFFFF }

  /** HC' = ~(~HC + ~m + m'). */
  function Incremental(hc: u16, old16: u16, new16: u16): u16
  {
    Complement(Fold(Complement(hc) + Complement(old16) + new16))
  }

  /** lwIP's `inet_chksum`. */
  function InetChksum(b: seq<byte>): u16 { Complement(Fold(WordSum(b))) }

  predicate Congruent(a: int, b: int) { (a - b) % 0xFFFF == 0 }

  /** The folding loop both rewriters run on a 32-bit accumulator. */
  method FoldLoop(start: u32) returns (sum: u16)
    ensures sum == Fold(start)
  {
    var acc: u32 := start;
    while acc / 0x1_0000 != 0
      invariant Fold(acc) == Fold(start)
      decreases acc
    {
      acc := acc % 0x1_0000 + acc / 0x1_0000;
    }
    sum := acc;
  }

  lemma {:induction false} FoldCongruent(sum: nat)
    ensures Congruent(Fold(sum), sum)
    ensures Fold(sum) == 0 <==> sum == 0
    decreases sum
  {
    if sum >= 0x1_0000 {
      var next := sum % 0x1_0000 + sum / 0x1_0000;
      FoldCongruent(next);
      CarrySplit(sum);
      AddMultiple(Fold(next) - next, -(sum / 0x1_0000));
    }
  }

  lemma CarrySplit(sum: nat)
    ensures sum == sum % 0x1_0000 + sum / 0x1_0000 + 0xFFFF * (sum / 0x1_0000)
    ensures sum > 0 ==> sum % 0x1_0000 + sum / 0x1_0000 > 0
  {
  }

  lemma AddMultiple(x: int, q: int)
    requires x % 0xFFFF == 0
    ensures (x + 0xFFFF * q) % 0xFFFF == 0
  {
    Quotient(x);
    Multiple(x / 0xFFFF + q);
    assert x + 0xFFFF * q == 0xFFFF * (x / 0xFFFF + q);
  }

  /** Folding to all ones is divisibility by 0xFFFF of a sum that is not zero. */
  lemma VerifiesIff(sum: nat)
    ensures Verifies(sum) <==> sum > 0 && sum % 0xFFFF == 0
  {
    FoldCongruent(sum);
    FoldedIsOnesIff(Fold(sum), sum);
  }

  lemma FoldedIsOnesIff(folded: u16, sum: nat)
    requires Congruent(folded, sum) && (folded == 0 <==> sum == 0)
    ensures folded == 0xFFFF <==> sum > 0 && sum % 0xFFFF == 0
  {
    CongruentDivisible(folded, sum);
  }

  lemma IncrementalCongruent(hc: u16, old16: u16, new16: u16)
    ensures Congruent(Incremental(hc, old16, new16) + new16, hc + old16)
  {
    hide Fold;
    var sum := Complement(hc) + Complement(old16) + new16;
    FoldCongruent(sum);
    var q := (Fold(sum) - sum) / 0xFFFF;
    Quotient(Fold(sum) - sum);
    Multiple(-1 - q);
    assert (Complement(Fold(sum)) + new16) - (hc + old16) == 0xFFFF * (-1 - q);
  }

  lemma Quotient(x: int)
    requires x % 0xFFFF == 0
    ensures x == 0xFFFF * (x / 0xFFFF)
  {
  }

  lemma Multiple(q: int)
    ensures (0xFFFF * q) % 0xFFFF == 0
  {
  }

  lemma CongruentVerifies(a: nat, b: nat)
    requires a > 0 && b > 0
    ensures Congruent(a, b) ==> (Verifies(a) <==> Verifies(b))
    ensures Verifies(b) ==> (Verifies(a) <==> Congruent(a, b))
  {
    hide Verifies;
    VerifiesIff(a);
    VerifiesIff(b);
    if Congruent(a, b) { CongruentDivisible(a, b); }
    if a % 0xFFFF == 0 && b % 0xFFFF == 0 { DifferenceDivisible(a, b); }
  }

  lemma DifferenceDivisible(a: int, b: int)
    requires a % 0xFFFF == 0 && b % 0xFFFF == 0
    ensures Congruent(a, b)
  {
    Quotient(a);
    Quotient(b);
    Multiple(a / 0xFFFF - b / 0xFFFF);
    assert a - b == 0xFFFF * (a / 0xFFFF - b / 0xFFFF);
  }

  /** One byte weighs 1 at an even offset and 256 at an odd one. */
  lemma {:induction false} WordSumUpdate(b: seq<byte>, k: nat, x: byte)
    requires k < |b|
    ensures WordSum(b[k := x]) == WordSum(b) + (x - b[k]) * (if k % 2 == 0 then 1 else 0x100)
  {
    if k >= 2 {
      assert b[k := x][2..] == b[2..][k - 2 := x];
      WordSumUpdate(b[2..], k - 2, x);
    } else if |b| >= 2 {
      assert b[k := x][2..] == b[2..];
    }
  }

  /** Two neighbouring bytes count as the word the CPU loads at an even offset, and byte-swapped at an odd one. */
  lemma WordSumUpdatePair(b: seq<byte>, k: nat, x: byte, y: byte)
    requires k + 1 < |b|
    ensures k % 2 == 0 ==> WordSum(b[k := x][k + 1 := y]) == WordSum(b) + Le16(x, y) - Le16(b[k], b[k + 1])
    ensures k % 2 == 1 ==> WordSum(b[k := x][k + 1 := y]) == WordSum(b) + Be16(x, y) - Be16(b[k], b[k + 1])
  {
    WordSumUpdate(b, k, x);
    WordSumUpdate(b[k := x], k + 1, y);
  }

  lemma {:induction false} WordSumAtLeast(b: seq<byte>, k: nat)
    requires k < |b|
    ensures WordSum(b) >= b[k]
  {
    if k >= 2 { WordSumAtLeast(b[2..], k - 2); }
  }

  lemma {:induction false} WordSumAppend(a: seq<byte>, b: seq<byte>)
    requires |a| % 2 == 0
    ensures WordSum(a + b) == WordSum(a) + WordSum(b)
  {
    if a == [] {
      assert a + b == b;
    } else {
      assert (a + b)[2..] == a[2..] + b;
      WordSumAppend(a[2..], b);
    }
  }

  lemma {:induction false} NetworkSumCongruent(b: seq<byte>)
    ensures Congruent(NetworkSum(b), 0x100 * WordSum(b))
    ensures NetworkSum(b) == 0 <==> WordSum(b) == 0
  {
    if |b| >= 2 {
      NetworkSumCongruent(b[2..]);
      WordCongruent(b[0], b[1], NetworkSum(b[2..]), WordSum(b[2..]));
    } else if |b| == 1 {
      Multiple(0);
    }
  }

  lemma WordCongruent(first: byte, second: byte, network: nat, words: nat)
    requires Congruent(network, 0x100 * words)
    ensures Congruent(Be16(first, second) + network, 0x100 * (Le16(first, second) + words))
  {
    AddMultiple(network - 0x100 * words, -(second as int));
  }

  /** RFC 1071's byte-order independence: the CPU's word order accepts exactly the blocks network order accepts. */
  lemma ByteOrderIndependent(b: seq<byte>)
    ensures Verifies(WordSum(b)) <==> Verifies(NetworkSum(b))
  {
    NetworkSumCongruent(b);
    VerifiesIff(WordSum(b));
    VerifiesIff(NetworkSum(b));
    CongruentDivisible(NetworkSum(b), 0x100 * WordSum(b));
    ShiftDivisible(WordSum(b));
  }

  lemma CongruentDivisible(a: int, b: int)
    requires Congruent(a, b)
    ensures a % 0xFFFF == 0 <==> b % 0xFFFF == 0
  {
    var q := (a - b) / 0xFFFF;
    Quotient(a - b);
    if b % 0xFFFF == 0 {
      Quotient(b);
      Multiple(q + b / 0xFFFF);
      assert a == 0xFFFF * (q + b / 0xFFFF);
    }
    if a % 0xFFFF == 0 {
      Quotient(a);
      Multiple(a / 0xFFFF - q);
      assert b == 0xFFFF * (a / 0xFFFF - q);
    }
  }

  /** 256 * 256 is 1 modulo 0xFFFF, so a byte swap keeps divisibility. */
  lemma ShiftDivisible(w: nat)
    ensures w % 0xFFFF == 0 <==> (0x100 * w) % 0xFFFF == 0
  {
    if (0x100 * w) % 0xFFFF == 0 {
      var q := 0x100 * w / 0xFFFF;
      assert 0x100 * w == 0xFFFF * q;
      assert w == 0xFFFF * (0x100 * q - w);
    }
  }

  /** Storing `inet_chksum` of a block into its zeroed, even-aligned checksum field makes the block verify. */
  lemma StoredChecksumVerifies(b: seq<byte>, k: nat)
    requires k % 2 == 0 && k + 1 < |b|
    requires b[k] == 0 && b[k + 1] == 0
    requires WordSum(b) > 0
    ensures var c := InetChksum(b); Verifies(WordSum(b[k := c % 0x100][k + 1 := c / 0x100]))
  {
    hide WordSum, Fold;
    var c := InetChksum(b);
    WordSumUpdatePair(b, k, c % 0x100, c / 0x100);
    FoldCongruent(WordSum(b));
    PlusComplement(WordSum(b), Fold(WordSum(b)));
    VerifiesIff(WordSum(b) + Complement(Fold(WordSum(b))));
  }

  lemma PlusComplement(sum: nat, folded: u16)
    requires Congruent(folded, sum)
    ensures (sum + Complement(folded)) % 0xFFFF == 0
  {
    var q := (folded - sum) / 0xFFFF;
    assert sum + (0xFFFF - folded) == 0xFFFF * (1 - q);
  }
}
