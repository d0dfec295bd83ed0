/** Machine words as sequences of bits, the lowest bit first, with C's bitwise operators. */
module Bits {
  import opened Basics

  type ByteBits = s: seq<bool> | |s| == 8 witness [false, false, false, false, false, false, false, false]
  type ShortBits = s: seq<bool> | |s| == 16 witness seq(16, i => false)
  type WordBits = s: seq<bool> | |s| == 32 witness seq(32, i => false)

  /** The word with ones from bit `lo` up to bit `hi`, exclusive. */
  function Ones(lo: nat, hi: nat): WordBits {
    seq(32, i => lo <= i < hi)
  }

  const NONE: WordBits := Ones(0, 0)
  const ALL: WordBits := Ones(0, 32)

  function Zeros(n: nat): (s: seq<bool>)
    ensures |s| == n
  {
    seq(n, i => false)
  }

  function AllOnes(n: nat): (s: seq<bool>)
    ensures |s| == n
  {
    seq(n, i => true)
  }

  function Or(a: WordBits, b: WordBits): WordBits {
    seq(32, i requires 0 <= i < 32 => a[i] || b[i])
  }

  function And(a: WordBits, b: WordBits): WordBits {
    seq(32, i requires 0 <= i < 32 => a[i] && b[i])
  }

  function Not(a: WordBits): WordBits {
    seq(32, i requires 0 <= i < 32 => !a[i])
  }

  function Shl(a: WordBits, k: nat): WordBits {
    seq(32, i requires 0 <= i < 32 => i >= k && a[i - k])
  }

  function Shr(a: WordBits, k: nat): WordBits {
    seq(32, i requires 0 <= i < 32 => i + k < 32 && a[i + k])
  }

  /** Zero extension of a narrower unsigned integer. */
  function Widen(a: seq<bool>): WordBits
    requires |a| <= 32
  {
    seq(32, i requires 0 <= i < 32 => i < |a| && a[i])
  }

  /** The `width` lowest bits of a number. */
  function Number(n: nat, width: nat): (s: seq<bool>)
    ensures |s| == width
  {
    if width == 0 then [] else [n % 2 == 1] + Number(n / 2, width - 1)
  }

  function WordOf(n: nat): WordBits {
    Number(n, |NONE|)
  }

  /** The number that bits stand for. */
  function Value(bits: seq<bool>): nat {
    if bits == [] then 0 else (if bits[0] then 1 else 0) + 2 * Value(bits[1..])
  }

  lemma {:induction false} ValueOfNumber(n: nat, width: nat)
    requires n < PowerOf2(width)
    ensures Value(Number(n, width)) == n
  {
    if width > 0 {
      ValueOfNumber(n / 2, width - 1);
      assert Number(n, width)[1..] == Number(n / 2, width - 1);
    }
  }

  lemma {:induction false} NumberOfValue(bits: seq<bool>)
    ensures Value(bits) < PowerOf2(|bits|)
    ensures Number(Value(bits), |bits|) == bits
  {
    if bits != [] {
      NumberOfValue(bits[1..]);
      assert bits == [bits[0]] + bits[1..];
    }
  }

  lemma {:induction false} ValueOfJoined(low: seq<bool>, high: seq<bool>)
    ensures Value(low + high) == Value(low) + PowerOf2(|low|) * Value(high)
  {
    if low == [] {
      assert low + high == high;
    } else {
      ValueOfJoined(low[1..], high);
      assert (low + high)[1..] == low[1..] + high;
      var part := PowerOf2(|low| - 1) * Value(high);
      assert PowerOf2(|low|) * Value(high) == 2 * part;
    }
  }

  lemma NumberStep(low: nat, half: nat, width: nat)
    requires width > 0
    ensures Number(low + 2 * half, width) == [low % 2 == 1] + Number(low / 2 + half, width - 1)
  {
    assert (low + 2 * half) % 2 == low % 2 && (low + 2 * half) / 2 == low / 2 + half;
  }

  /** `high`, shifted up by `k` bits. */
  function Raised(high: nat, k: nat): nat {
    if k == 0 then high else 2 * Raised(high, k - 1)
  }

  lemma {:induction false} RaisedIsTimes(high: nat, k: nat)
    ensures Raised(high, k) == PowerOf2(k) * high
  {
    if k > 0 {
      RaisedIsTimes(high, k - 1);
    }
  }

  lemma {:induction false} RaisedSplit(low: nat, high: nat, k: nat, width: nat)
    requires k <= width && low < PowerOf2(k)
    ensures Number(low + Raised(high, k), width) == Number(low, k) + Number(high, width - k)
  {
    if k > 0 {
      NumberStep(low, Raised(high, k - 1), width);
      RaisedSplit(low / 2, high, k - 1, width - 1);
      var rest := Number(high, width - k);
      assert [low % 2 == 1] + (Number(low / 2, k - 1) + rest) == Number(low, k) + rest;
    }
  }

  lemma NumberSplit(low: nat, high: nat, k: nat, width: nat)
    requires k <= width && low < PowerOf2(k)
    ensures Number(low + PowerOf2(k) * high, width) == Number(low, k) + Number(high, width - k)
  {
    RaisedIsTimes(high, k);
    RaisedSplit(low, high, k, width);
  }

  lemma {:induction false} NumberOfZero(width: nat)
    ensures Number(0, width) == Zeros(width) && Value(Zeros(width)) == 0
  {
    if width > 0 {
      NumberOfZero(width - 1);
      assert Zeros(width) == [false] + Zeros(width - 1);
    }
  }

  lemma NumberFits(n: nat, k: nat, width: nat)
    requires k <= width && n < PowerOf2(k)
    ensures Number(n, width) == Number(n, k) + Zeros(width - k)
  {
    NumberSplit(n, 0, k, width);
    NumberOfZero(width - k);
    assert n + PowerOf2(k) * 0 == n;
  }

  /** A number of two parts, with nothing above. */
  lemma NumberOfParts(low: nat, high: nat, k: nat, m: nat, width: nat)
    requires k + m <= width && low < PowerOf2(k) && high < PowerOf2(m)
    ensures Number(low + PowerOf2(k) * high, width) == Number(low, k) + Number(high, m) + Zeros(width - k - m)
  {
    NumberSplit(low, high, k, width);
    NumberFits(high, m, width - k);
    assert Number(low, k) + (Number(high, m) + Zeros(width - k - m))
        == Number(low, k) + Number(high, m) + Zeros(width - k - m);
  }

  lemma ValueOfParts(low: seq<bool>, high: seq<bool>, zeros: nat)
    ensures Value(low + high + Zeros(zeros)) == Value(low) + PowerOf2(|low|) * Value(high)
  {
    var top := Zeros(zeros);
    ValueOfJoined(low + high, top);
    ValueOfJoined(low, high);
    NumberOfZero(zeros);
    assert PowerOf2(|low + high|) * Value(top) == 0;
  }

  lemma MaskedLow(all: WordBits, k: nat)
    requires k <= 32
    ensures And(all, Ones(0, k)) == all[..k] + Zeros(32 - k)
  {
  }

  lemma ValueOfFirst(low: seq<bool>, zeros: nat)
    ensures Value(low + Zeros(zeros)) == Value(low)
  {
    ValueOfJoined(low, Zeros(zeros));
    NumberOfZero(zeros);
  }

  /** A word and what is left of it under a mask of its lowest `k` bits. */
  lemma ValueOfLow(all: WordBits, k: nat)
    requires k <= 32
    ensures Value(And(all, Ones(0, k))) == Value(all[..k]) < PowerOf2(k)
    ensures Value(all) == Value(all[..k]) + PowerOf2(k) * Value(all[k..])
  {
    MaskedLow(all, k);
    ValueOfFirst(all[..k], 32 - k);
    NumberOfValue(all[..k]);
    assert all == all[..k] + all[k..];
    ValueOfJoined(all[..k], all[k..]);
  }

  /** A number has no one at a bit position that is at least the number itself. */
  lemma {:induction false} NoBitAt(n: nat, width: nat, i: nat)
    requires n <= i < width
    ensures !Number(n, width)[i]
  {
    if i > 0 {
      NoBitAt(n / 2, width - 1, i - 1);
    }
  }
}
