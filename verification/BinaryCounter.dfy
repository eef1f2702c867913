/**
  Arithmetic of the rank counter: powers of two, bits, bit lengths and the floor of the binary logarithm.
 */
module BinaryCounter {

  function Pow2(n: nat): (p: nat)
    ensures p >= 1
  {
    if n == 0 then 1 else 2 * Pow2(n - 1)
  }

  predicate Bit(k: nat, i: nat) {
    if i == 0 then k % 2 == 1 else Bit(k / 2, i - 1)
  }

  ghost predicate LowestBit(k: nat, i: nat) {
    Bit(k, i) && forall j | 0 <= j < i :: !Bit(k, j)
  }

  function BitLength(k: nat): nat {
    if k == 0 then 0 else 1 + BitLength(k / 2)
  }

  function FloorLog2(n: nat): nat
    requires n >= 1
  {
    BitLength(n) - 1
  }

  lemma {:induction false} Pow2Monotone(m: nat, n: nat)
    requires m <= n
    ensures Pow2(m) <= Pow2(n)
  {
    if m < n {
      Pow2Monotone(m, n - 1);
    }
  }

  lemma {:induction false} BitLengthBounds(k: nat)
    ensures k < Pow2(BitLength(k))
    ensures k >= 1 ==> Pow2(BitLength(k) - 1) <= k
  {
    if k > 0 {
      var h := k / 2;
      BitLengthBounds(h);
      assert k == 2 * h || k == 2 * h + 1;
      assert Pow2(BitLength(k)) == 2 * Pow2(BitLength(h));
    }
  }

  lemma FloorLog2Bounds(n: nat)
    requires n >= 1
    ensures Pow2(FloorLog2(n)) <= n < Pow2(FloorLog2(n) + 1)
  {
    BitLengthBounds(n);
  }

  /** The bounds determine the bit length. */
  lemma BitLengthUnique(k: nat, b: nat)
    requires k < Pow2(b) && (b >= 1 ==> Pow2(b - 1) <= k)
    ensures b == BitLength(k)
  {
    BitLengthBounds(k);
    if b < BitLength(k) {
      Pow2Monotone(b, BitLength(k) - 1);
    } else if BitLength(k) < b {
      Pow2Monotone(BitLength(k), b - 1);
    }
  }

  /** The number with the lowest `n` bits of `k`. */
  function LowBits(k: nat, n: nat): nat {
    if n == 0 then 0 else LowBits(k, n - 1) + if Bit(k, n - 1) then Pow2(n - 1) else 0
  }

  lemma {:induction false} LowBitsOfHalf(k: nat, n: nat)
    ensures LowBits(k, n + 1) == k % 2 + 2 * LowBits(k / 2, n)
  {
    if n > 0 {
      LowBitsOfHalf(k, n - 1);
    }
  }

  /** The bits are those of the binary representation. */
  lemma {:induction false} BitsAddUp(k: nat)
    ensures LowBits(k, BitLength(k)) == k
  {
    if k > 0 {
      BitsAddUp(k / 2);
      LowBitsOfHalf(k, BitLength(k / 2));
    }
  }

  lemma {:induction false} NoBitsAbove(k: nat, i: nat)
    requires i >= BitLength(k)
    ensures !Bit(k, i)
  {
    if k > 0 {
      NoBitsAbove(k / 2, i - 1);
    } else if i > 0 {
      NoBitsAbove(0, i - 1);
    }
  }

  /** Adding one clears the trailing one bits below `i`, sets bit `i`, and leaves the higher bits alone. */
  lemma {:induction false} Increment(k: nat, next: nat, i: nat)
    requires next == k + 1
    requires forall j | 0 <= j < i :: Bit(k, j)
    requires !Bit(k, i)
    ensures forall j | 0 <= j < i :: !Bit(next, j)
    ensures Bit(next, i)
    ensures forall j: nat | j > i :: Bit(next, j) == Bit(k, j)
    decreases i
  {
    if i == 0 {
      assert next / 2 == k / 2;
    } else {
      var h, h' := k / 2, next / 2;
      assert Bit(k, 0);
      assert h' == h + 1;
      forall j | 0 <= j < i - 1 ensures Bit(h, j) { assert Bit(k, j + 1); }
      Increment(h, h', i - 1);
      forall j | 0 <= j < i ensures !Bit(next, j) {
        if j > 0 { assert !Bit(h', j - 1); }
      }
      forall j: nat | j > i ensures Bit(next, j) == Bit(k, j) {
        assert Bit(h', j - 1) == Bit(h, j - 1);
      }
    }
  }

  /** When the low bits of `k` below `m` are all ones and nothing is above them, `k` is one less than a power of two. */
  lemma {:induction false} AllOnes(k: nat, m: nat)
    requires forall j | 0 <= j < m :: Bit(k, j)
    requires BitLength(k) <= m
    ensures k + 1 == Pow2(m)
  {
    if m > 0 {
      assert Bit(k, 0);
      forall j | 0 <= j < m - 1 ensures Bit(k / 2, j) { assert Bit(k, j + 1); }
      AllOnes(k / 2, m - 1);
    }
  }

  /** The bit length after adding one, from the position `i` where the carry stops. */
  lemma {:induction false} IncrementLength(k: nat, i: nat)
    requires forall j | 0 <= j < i :: Bit(k, j)
    requires !Bit(k, i) && i <= BitLength(k)
    ensures BitLength(k + 1) == (if i < BitLength(k) then BitLength(k) else i + 1)
    decreases i
  {
    if i > 0 {
      assert Bit(k, 0);
      assert (k + 1) / 2 == k / 2 + 1;
      forall j | 0 <= j < i - 1 ensures Bit(k / 2, j) { assert Bit(k, j + 1); }
      IncrementLength(k / 2, i - 1);
    } else if k > 0 {
      assert (k + 1) / 2 == k / 2;
    }
  }

  lemma {:induction false} PredecessorOfPow2(m: nat, i: nat)
    requires i < m
    ensures Bit(Pow2(m) - 1, i)
  {
    if i > 0 {
      assert (Pow2(m) - 1) / 2 == Pow2(m - 1) - 1;
      PredecessorOfPow2(m - 1, i - 1);
    }
  }

  lemma {:induction false} Pow2Sum(m: nat, n: nat)
    ensures Pow2(m + n) == Pow2(m) * Pow2(n)
  {
    if m > 0 {
      Pow2Sum(m - 1, n);
      assert m - 1 + n == m + n - 1;
      assert 2 * (Pow2(m - 1) * Pow2(n)) == (2 * Pow2(m - 1)) * Pow2(n);
    }
  }
}
