/** The one's-complement checksum of src/utils.c, against RFC 1071. */
module Checksum {
  import opened Bytes

  /** Sum of the little-endian 16-bit words; an odd last byte counts as itself. */
  function WordSum(s: seq<byte>): nat {
    if |s| == 0 then 0
    else if |s| == 1 then s[0]
    else GetLe16(s, 0) + WordSum(s[2..])
  }

  /** Sum of the big-endian words; RFC 1071 pads an odd last byte with zero on the right. */
  function WordSumBE(s: seq<byte>): nat {
    if |s| == 0 then 0
    else if |s| == 1 then 256 * s[0]
    else GetBe16(s, 0) + WordSumBE(s[2..])
  }

  /** The one's-complement (end-around-carry) value of a sum: its residue modulo
      0xFFFF, where only an all-zero sum gives zero. */
  function OnesSum(n: nat): u16 {
    if n == 0 then 0 else 1 + (n - 1) % 0xFFFF
  }

  function Checksum16(s: seq<byte>): u16 { 0xFFFF - OnesSum(WordSum(s)) }

  function Checksum16BE(s: seq<byte>): u16 { 0xFFFF - OnesSum(WordSumBE(s)) }

  /** One round of the carry loop. */
  function Fold(n: nat): nat { n % 0x1_0000 + n / 0x1_0000 }

  lemma OnesSumUnique(n: nat, r: u16, k: int)
    requires n > 0 && r > 0 && n - r == 0xFFFF * k
    ensures OnesSum(n) == r
  {
    assert (n - 1) - (r - 1) == 0xFFFF * k;
    assert (n - 1) == 0xFFFF * k + (r - 1);
  }

  lemma OnesSumResidue(n: nat) returns (k: int)
    ensures n == OnesSum(n) + 0xFFFF * k
    ensures OnesSum(n) == 0 <==> n == 0
  {
    k := if n == 0 then 0 else (n - 1) / 0xFFFF;
  }

  lemma FoldKeepsOnesSum(n: nat)
    ensures OnesSum(Fold(n)) == OnesSum(n)
  {
    if n > 0 {
      var k := OnesSumResidue(n);
      var h := n / 0x1_0000;
      assert n == 0x1_0000 * h + n % 0x1_0000;
      assert Fold(n) == OnesSum(n) + 0xFFFF * (k - h);
      OnesSumUnique(Fold(n), OnesSum(n), k - h);
    }
  }

  /** A 32-bit sum folds to 16 bits in at most two rounds. */
  lemma FoldTwice(n: u32)
    ensures Fold(Fold(n)) < 0x1_0000
    ensures Fold(Fold(n)) == OnesSum(n)
  {
    FoldKeepsOnesSum(n);
    FoldKeepsOnesSum(Fold(n));
    var m := Fold(n);
    assert m <= 0x1_FFFE;
    if m >= 0x1_0000 {
      assert m / 0x1_0000 == 1;
    }
    assert Fold(m) < 0x1_0000;
  }

  lemma {:induction false} WordSumBound(s: seq<byte>)
    ensures WordSum(s) <= 0xFFFF * ((|s| + 1) / 2)
  {
    if |s| >= 2 {
      WordSumBound(s[2..]);
    }
  }

  /** src/utils.c:72-91.  The accumulator is a uint32_t, so it is reduced at every step;
      up to 131074 bytes nothing is lost, and the carry loop runs at most twice. */
  method ComputeChecksum16(data: seq<byte>) returns (c: u16, ghost rounds: nat)
    ensures |data| <= 131074 ==> WordSum(data) < 0x1_0000_0000 && c == Checksum16(data)
    ensures rounds <= 2
  {
    var sum: u32 := 0;
    var i := 0;
    WordSumBound(data);
    while i < |data|
      invariant 0 <= i <= |data| + 1
      invariant i % 2 == 0
      invariant sum <= WordSum(data) - RestSum(data, i)
      invariant |data| <= 131074 ==> sum == WordSum(data) - RestSum(data, i)
    {
      RestSumStep(data, i);
      if i == |data| - 1 {
        sum := ToU32(sum + data[i]);
      } else {
        sum := ToU32(sum + GetLe16(data, i));
      }
      i := i + 2;
    }
    c, rounds := FoldCarries(sum);
  }

  /** What the loop has still to add when it stands at position i. */
  ghost function RestSum(s: seq<byte>, i: nat): nat {
    if i <= |s| then WordSum(s[i..]) else 0
  }

  lemma {:induction false} RestSumStep(s: seq<byte>, i: nat)
    requires i < |s|
    ensures RestSum(s, i) == (if i == |s| - 1 then s[i] else GetLe16(s, i)) + RestSum(s, i + 2)
    ensures RestSum(s, 0) == WordSum(s)
  {
    assert s[0..] == s;
    if i < |s| - 1 {
      assert s[i..][2..] == s[i + 2..];
    }
  }

  /** The carry loop and the final complement. */
  method FoldCarries(total: u32) returns (c: u16, ghost rounds: nat)
    ensures c == 0xFFFF - OnesSum(total)
    ensures rounds <= 2
  {
    var sum := total;
    FoldTwice(total);
    rounds := 0;
    while sum / 0x1_0000 != 0
      invariant rounds <= 2
      invariant OnesSum(sum) == OnesSum(total)
      invariant rounds == 0 ==> sum == total
      invariant rounds == 1 ==> sum == Fold(total)
      invariant rounds == 2 ==> sum == Fold(Fold(total))
      decreases 2 - rounds
    {
      FoldKeepsOnesSum(sum);
      sum := sum % 0x1_0000 + sum / 0x1_0000;
      rounds := rounds + 1;
    }
    c := 0xFFFF - sum;
  }

  // ----- Byte-order independence: section 2(B) of RFC 1071

  /** Sum of the high-address bytes of the full words: how far 256 times one sum is from the other. */
  function SecondBytes(s: seq<byte>): nat {
    if |s| < 2 then 0 else s[1] + SecondBytes(s[2..])
  }

  lemma {:induction false} SumsDifferByTheSwap(s: seq<byte>)
    ensures 256 * WordSum(s) == WordSumBE(s) + 0xFFFF * SecondBytes(s)
    ensures WordSum(s) == 0 <==> WordSumBE(s) == 0
  {
    if |s| >= 2 {
      SumsDifferByTheSwap(s[2..]);
    }
  }

  lemma SwapOfOnesSum(n: nat, m: nat, q: int)
    requires 256 * m == n + 0xFFFF * q
    requires n == 0 <==> m == 0
    ensures Swap16(OnesSum(n)) == OnesSum(m)
  {
    if n > 0 {
      var k := OnesSumResidue(n);
      var hi, lo := OnesSum(n) / 256, OnesSum(n) % 256;
      SwapParts(hi, lo);
      var swapped := 256 * lo + hi;
      assert 256 * (m - swapped) == 0xFFFF * (q + k - lo);
      OnesSumUnique(m, swapped, 256 * (q + k - lo) - (m - swapped));
    }
  }

  lemma SwapOfComplement(x: u16)
    ensures Swap16(0xFFFF - x) == 0xFFFF - Swap16(x)
  {
    var hi, lo := x / 256, x % 256;
    SwapParts(hi, lo);
    SwapParts(255 - hi, 255 - lo);
  }

  /** The checksum over little-endian words is the byte swap of the checksum over
      big-endian words, for every byte string, odd lengths included. */
  lemma ByteOrderIndependence(s: seq<byte>)
    ensures Checksum16(s) == Swap16(Checksum16BE(s))
  {
    SumsDifferByTheSwap(s);
    SwapOfOnesSum(WordSumBE(s), WordSum(s), SecondBytes(s));
    SwapOfComplement(OnesSum(WordSumBE(s)));
  }

  // ----- The acceptance test

  /** s with the 16-bit word at an even offset replaced (in memory order). */
  function SetWord(s: seq<byte>, at: nat, w: u16): (r: seq<byte>)
    requires at + 2 <= |s|
    ensures |r| == |s|
  {
    s[at := w % 256][at + 1 := w / 256]
  }

  /** A word written through memory. */
  lemma WrittenWord(s: seq<byte>, at: nat, w: u16)
    requires at + 2 <= |s|
    ensures s[..at] + Le16(w) + s[at + 2..] == SetWord(s, at, w)
    ensures SetWord(SetWord(s, at, w), at, GetLe16(s, at)) == s
  {
    assert GetLe16(s, at) % 256 == s[at] && GetLe16(s, at) / 256 == s[at + 1];
  }

  lemma {:induction false} WordSumOfSetWord(s: seq<byte>, at: nat, w: u16)
    requires at + 2 <= |s| && at % 2 == 0
    ensures WordSum(SetWord(s, at, w)) == WordSum(s) - GetLe16(s, at) + w
    ensures WordSum(s) >= GetLe16(s, at)
  {
    var r := SetWord(s, at, w);
    if at == 0 {
      assert r[2..] == s[2..];
    } else {
      assert r[2..] == SetWord(s[2..], at - 2, w);
      WordSumOfSetWord(s[2..], at - 2, w);
    }
  }

  /** What ip_in and udp_in do: zero the stored field, recompute, compare. */
  predicate Accepts(s: seq<byte>, at: nat)
    requires at + 2 <= |s|
  {
    Checksum16(SetWord(s, at, 0)) == GetLe16(s, at)
  }

  /** What RFC 1071 says: the sum over everything, the field included, is all ones. */
  predicate AllOnes(s: seq<byte>) { OnesSum(WordSum(s)) == 0xFFFF }

  /** A sender that stores the checksum of the zeroed header is always accepted. */
  lemma StoredChecksumIsAccepted(s: seq<byte>, at: nat)
    requires at + 2 <= |s| && at % 2 == 0
    requires GetLe16(s, at) == 0
    ensures Accepts(SetWord(s, at, Checksum16(s)), at)
  {
    var r := SetWord(s, at, Checksum16(s));
    assert SetWord(r, at, 0) == s;
  }

  /** The recompute-and-compare test is the all-ones test of RFC 1071, except for the
      second representation of zero: a stored 0xFFFF over a rest that sums to 0xFFFF. */
  lemma AcceptsIffAllOnes(s: seq<byte>, at: nat)
    requires at + 2 <= |s| && at % 2 == 0
    ensures Accepts(s, at) <==>
            AllOnes(s) && !(GetLe16(s, at) == 0xFFFF && OnesSum(WordSum(SetWord(s, at, 0))) == 0xFFFF)
  {
    var c := GetLe16(s, at);
    var z := SetWord(s, at, 0);
    WordSumOfSetWord(s, at, 0);
    var n := WordSum(z);
    assert WordSum(s) == n + c;
    var k := OnesSumResidue(n);
    if Accepts(s, at) {
      OnesSumUnique(n + c, 0xFFFF, k);
    }
    if AllOnes(s) {
      var j := OnesSumResidue(n + c);
      assert c + OnesSum(n) == 0xFFFF * (j - k + 1);
      assert j - k + 1 == 1 || j - k + 1 == 2;
    }
  }

  /** 0x0000 and 0xFFFF are the two one's-complement zeros. */
  predicate OtherZero(a: u16, b: u16) {
    (a == 0 && b == 0xFFFF) || (a == 0xFFFF && b == 0)
  }

  lemma SameOnesSum(rest: nat, a: u16, b: u16)
    requires a != b
    ensures OnesSum(rest + a) == OnesSum(rest + b) <==> OtherZero(a, b) && rest > 0
  {
    var i := OnesSumResidue(rest + a);
    var j := OnesSumResidue(rest + b);
    if OnesSum(rest + a) == OnesSum(rest + b) {
      var d := i - j;
      assert a as int - b as int == 0xFFFF * d;
      assert d == 1 || d == -1;
    } else if a == 0 && b == 0xFFFF && rest > 0 {
      OnesSumUnique(rest, OnesSum(rest + b), j - 1);
    } else if b == 0 && a == 0xFFFF && rest > 0 {
      OnesSumUnique(rest, OnesSum(rest + a), i - 1);
    }
  }

  /** Exactly which single-word changes of an accepted header go undetected: 0x0000 to or
      from 0xFFFF in a word other than the checksum, when some other word is not zero. */
  lemma SingleWordChange(s: seq<byte>, at: nat, word: nat, w: u16)
    requires at + 2 <= |s| && at % 2 == 0
    requires word + 2 <= |s| && word % 2 == 0
    requires Accepts(s, at) && w != GetLe16(s, word)
    ensures Accepts(SetWord(s, word, w), at) <==>
            word != at && OtherZero(w, GetLe16(s, word)) && WordSum(SetWord(SetWord(s, at, 0), word, 0)) > 0
  {
    if word == at {
      assert SetWord(SetWord(s, word, w), at, 0) == SetWord(s, at, 0);
    } else {
      OtherWordChange(s, at, word, w);
    }
  }

  lemma OtherWordChange(s: seq<byte>, at: nat, word: nat, w: u16)
    requires at + 2 <= |s| && at % 2 == 0
    requires word + 2 <= |s| && word % 2 == 0 && word != at
    requires Accepts(s, at) && w != GetLe16(s, word)
    ensures Accepts(SetWord(s, word, w), at) <==>
            OtherZero(w, GetLe16(s, word)) && WordSum(SetWord(SetWord(s, at, 0), word, 0)) > 0
  {
    var r := SetWord(s, word, w);
    var z := SetWord(s, at, 0);
    assert SetWord(r, at, 0) == SetWord(z, word, w);
    assert GetLe16(z, word) == GetLe16(s, word) && GetLe16(r, at) == GetLe16(s, at);
    WordSumOfSetWord(z, word, w);
    WordSumOfSetWord(z, word, 0);
    SameOnesSum(WordSum(SetWord(z, word, 0)), w, GetLe16(s, word));
  }
}
