/** Processor bitmasks. A mask is a sequence of booleans, lowest-numbered
    logical CPU first; a 64-bit word (the Windows processor mask) is viewed
    as such a sequence through Bits64. */
module Bits {

  /** Number of set bits (CPUs present) in a mask. */
  function PopCount(s: seq<bool>): (n: nat)
    ensures n <= |s|
    ensures n == 0 <==> (forall i :: 0 <= i < |s| ==> !s[i])
  {
    if s == [] then 0 else (if s[0] then 1 else 0) + PopCount(s[1..])
  }

  /** Counting is additive over concatenation of masks. */
  lemma {:induction false} PopCountAppend(s: seq<bool>, t: seq<bool>)
    ensures PopCount(s + t) == PopCount(s) + PopCount(t)
  {
    if s == [] {
      assert s + t == t;
    } else {
      assert (s + t)[1..] == s[1..] + t;
      PopCountAppend(s[1..], t);
    }
  }

  /** Extending a prefix by one bit adds exactly that bit to the count. */
  lemma PopCountPrefixStep(s: seq<bool>, i: nat)
    requires i < |s|
    ensures PopCount(s[..i + 1]) == PopCount(s[..i]) + (if s[i] then 1 else 0)
  {
    assert s[..i + 1] == s[..i] + [s[i]];
    PopCountAppend(s[..i], [s[i]]);
  }

  /** Extending a suffix by one bit at its front adds exactly that bit. */
  lemma PopCountSuffixStep(s: seq<bool>, k: nat)
    requires k < |s|
    ensures PopCount(s[k..]) == (if s[k] then 1 else 0) + PopCount(s[k + 1..])
  {
    assert s[k..][1..] == s[k + 1..];
  }

  /** The count of a prefix never decreases as the prefix grows. */
  lemma PopCountPrefixMonotone(s: seq<bool>, i: nat, j: nat)
    requires i <= j <= |s|
    ensures PopCount(s[..i]) <= PopCount(s[..j])
  {
    assert s[..j] == s[..i] + s[i..j];
    PopCountAppend(s[..i], s[i..j]);
  }

  /** Reference definition of "the rank-th set bit in ascending bit order"
      (rank counted from 0), or -1 when the mask has no more than rank set
      bits. */
  function NthSetBit(s: seq<bool>, rank: nat): (r: int)
    ensures -1 <= r < |s|
    ensures r == -1 <==> PopCount(s) <= rank
    ensures r >= 0 ==> s[r] && PopCount(s[..r]) == rank
  {
    if s == [] then -1
    else if s[0] && rank == 0 then
      assert s[..0] == [];
      0
    else
      var rest := NthSetBit(s[1..], if s[0] then rank - 1 else rank);
      if rest < 0 then -1
      else
        assert s[..rest + 1][1..] == s[1..][..rest];
        rest + 1
  }

  /** A set bit with exactly rank set bits below it is the rank-th set bit:
      the selection is determined by the mask and the rank alone. */
  lemma {:induction false} NthSetBitUnique(s: seq<bool>, rank: nat, i: nat)
    requires i < |s| && s[i] && PopCount(s[..i]) == rank
    ensures NthSetBit(s, rank) == i
  {
    PopCountPrefixStep(s, i);
    PopCountPrefixMonotone(s, i + 1, |s|);
    assert s[..|s|] == s;
    var r := NthSetBit(s, rank);
    if r < i {
      PopCountPrefixStep(s, r);
      PopCountPrefixMonotone(s, r + 1, i);
    } else if r > i {
      PopCountPrefixMonotone(s, i + 1, r);
    }
  }

  /** Higher ranks select strictly higher CPU ids. */
  lemma {:induction false} NthSetBitIncreasing(s: seq<bool>, r1: nat, r2: nat)
    requires r1 < r2 < PopCount(s)
    ensures 0 <= NthSetBit(s, r1) < NthSetBit(s, r2)
  {
    var a, b := NthSetBit(s, r1), NthSetBit(s, r2);
    if b < a {
      PopCountPrefixStep(s, b);
      PopCountPrefixMonotone(s, b + 1, a);
    }
  }

  /** The low n bits of a word, bit 0 first, read off by shifting right one
      position at a time. */
  function BitsN(m: bv64, n: nat): (s: seq<bool>)
    ensures |s| == n
  {
    if n == 0 then [] else [m & 1 == 1] + BitsN(m >> 1, n - 1)
  }

  /** A 64-bit processor mask as a sequence of 64 membership flags. */
  function Bits64(m: bv64): (s: seq<bool>)
    ensures |s| == 64
  {
    BitsN(m, 64)
  }

  /** Bit k of a word, with the position given as a 32-bit unsigned value
      (the width of the source's loop counters). */
  predicate BitAtPos(m: bv64, k: bv32)
  {
    k < 64 && (m >> k) & 1 == 1
  }

  /** The 32-bit unsigned value of a small counter, built by repeated
      increments. The built-in `k as bv32` is avoided on purpose: once an
      int-to-bit-vector conversion appears inside a shift amount the solver
      runs out of resources, whereas this form only ever needs the small
      facts proved below (ToBvValue, ToBvComplement, ToBvBelow). */
  function ToBv(k: nat): bv32
  {
    if k == 0 then 0 else ToBv(k - 1) + 1
  }

  lemma ToBvValue(k: nat)
    requires k <= 64
    ensures ToBv(k) as int == k
  {
    if k > 0 {
      ToBvValue(k - 1);
      IncrementValue(ToBv(k - 1));
    }
  }

  lemma IncrementValue(x: bv32)
    requires x < 64
    ensures (x + 1) as int == x as int + 1
  {
  }

  lemma ToBvBounds(k: nat)
    requires k <= 64
    ensures ToBv(k) <= 64
    ensures k > 0 ==> ToBv(k) != 0
    ensures k < 64 ==> ToBv(k) < 64
  {
    ToBvValue(k);
  }

  /** Counting down from the top bit: position 63 - k. */
  lemma {:induction false} ToBvComplement(k: nat)
    requires k < 64
    ensures ToBv(63 - k) == 63 - ToBv(k)
  {
    if k == 0 {
      ToBvValue(63);
      TopValue(ToBv(63));
    } else {
      ToBvComplement(k - 1);
    }
  }

  /** The same, for positions already named by 32-bit values. */
  lemma ComplementPos(k: nat, pos: bv32, complement: bv32)
    requires k < 64 && pos == ToBv(k) && complement == ToBv(63 - k)
    ensures complement == 63 - pos
  {
    ToBvComplement(k);
  }

  /** A counter that starts at 0 and stops at 64 leaves the range of bit
      positions exactly when it reaches 64. */
  lemma ToBvBelow(k: nat)
    requires k <= 64
    ensures (ToBv(k) < 64) == (k < 64)
  {
    ToBvBounds(k);
    if k == 64 {
      ToBvComplement(0);
      assert ToBv(64) == ToBv(63) + 1;
    }
  }

  /** Reading a value back from its numeric form: stated on its own so
      that the conversion stays out of the larger proofs above. */
  lemma TopValue(a: bv32)
    requires a as int == 63
    ensures a == 63
  {
  }

  lemma ShiftStep(m: bv64, k: bv32)
    requires k != 0
    ensures BitAtPos(m >> 1, k - 1) == BitAtPos(m, k)
  {
  }

  lemma ShiftZero(m: bv64)
    ensures BitAtPos(m, 0) == (m & 1 == 1)
  {
  }

  /** Element k of the shifted-out sequence is bit k of the word. */
  lemma {:induction false} BitsNAt(m: bv64, n: nat, k: nat)
    requires k < n <= 64
    ensures BitsN(m, n)[k] == BitAtPos(m, ToBv(k))
  {
    if k == 0 {
      ShiftZero(m);
    } else {
      ToBvBounds(k);
      BitsNAt(m >> 1, n - 1, k - 1);
      ShiftStep(m, ToBv(k));
    }
  }

  /** The same, for a position already named by a 32-bit value. */
  lemma BitsNAtPos(m: bv64, n: nat, k: nat, pos: bv32)
    requires k < n <= 64 && pos == ToBv(k)
    ensures BitsN(m, n)[k] == BitAtPos(m, pos)
  {
    BitsNAt(m, n, k);
  }

  /** The one-hot probe word (1 << 63) >> k that walks from the top bit
      down; zero once k reaches the width. */
  function TopProbe(k: bv32): bv64
  {
    if k <= 64 then 0x8000_0000_0000_0000 >> k else 0
  }

  /** Halving the probe moves it one position down. */
  lemma TopProbeHalf(k: bv32)
    requires k < 64
    ensures TopProbe(k) / 2 == TopProbe(k + 1)
  {
  }

  /** Masking with the probe tests bit 63 - k. */
  lemma TopProbeTest(m: bv64, k: bv32, probe: bv64)
    requires k < 64 && probe == TopProbe(k)
    ensures (m & probe != 0) == BitAtPos(m, 63 - k)
  {
  }
}
