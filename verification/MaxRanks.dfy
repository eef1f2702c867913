/**
  Why the array of the mergesort is long enough: the macros FLOOR_LOG2 and MAX_RANKS of
  headers/mono/eglib/sort.frag.h.
 */
module MaxRanks {
  import opened BinaryCounter

  function AtLeast(x: nat, bound: nat): nat {
    if x >= bound then 1 else 0
  }

  /** The macro FLOOR_LOG2, a sum of comparisons. */
  function MacroFloorLog2(x: nat): nat {
    AtLeast(x, 2) + AtLeast(x, 4) + AtLeast(x, 8) + AtLeast(x, 16) + AtLeast(x, 32) + AtLeast(x, 64) + AtLeast(x, 128)
  }

  /** The macro MAX_RANKS for the given sizes, in bytes, of `size_t` and of a list node. */
  function MaxRanks(sizeOfSizeT: nat, sizeOfNode: nat): int {
    sizeOfSizeT * 8 - MacroFloorLog2(sizeOfNode) - 1
  }

  /** The macro is the floor of the logarithm, cut off at 7. */
  lemma MacroIsFloorLog2(x: nat)
    requires x >= 1
    ensures MacroFloorLog2(x) == if x < 256 then FloorLog2(x) else 7
    ensures Pow2(MacroFloorLog2(x)) <= x
  {
    assert Pow2(7) == 128 && Pow2(6) == 64 && Pow2(5) == 32 && Pow2(4) == 16;
    assert Pow2(3) == 8 && Pow2(2) == 4 && Pow2(1) == 2 && Pow2(0) == 1;
    var f := MacroFloorLog2(x);
    assert Pow2(f) <= x && (f < 7 ==> x < Pow2(f + 1));
    if x < 256 {
      assert x < Pow2(f + 1);
      BitLengthUnique(x, f + 1);
    }
  }

  lemma Cancel(n: nat, p: nat, s: nat, q: nat)
    requires p <= s && n * s < p * q
    ensures n < q
  {
    assert n * p <= n * s;
    assert n >= q ==> n * p >= q * p;
  }

  /** Nodes that fit in an address space of `size_t` bytes are fewer than would fill the array. */
  lemma ListFitsRanks(sizeOfSizeT: nat, sizeOfNode: nat, n: nat)
    requires sizeOfSizeT >= 1 && sizeOfNode >= 1
    requires n * sizeOfNode < Pow2(8 * sizeOfSizeT)
    ensures MaxRanks(sizeOfSizeT, sizeOfNode) >= 0
    ensures n < Pow2(MaxRanks(sizeOfSizeT, sizeOfNode) + 1)
  {
    hide Pow2;
    var f := MacroFloorLog2(sizeOfNode);
    var rest := 8 * sizeOfSizeT - f;
    MacroIsFloorLog2(sizeOfNode);
    Pow2Sum(f, rest);
    Cancel(n, Pow2(f), sizeOfNode, Pow2(rest));
  }

  /** An array of this length is long enough for every list that fits in the address space. */
  ghost predicate Suffices(sizeOfSizeT: nat, sizeOfNode: nat, ranks: int) {
    ranks >= 0 && forall n: nat :: n * sizeOfNode < Pow2(8 * sizeOfSizeT) ==> n < Pow2(ranks + 1)
  }

  /** For nodes of less than 256 bytes the macro gives the least length that is long enough. */
  lemma MaxRanksIsLeast(sizeOfSizeT: nat, sizeOfNode: nat, ranks: int)
    requires sizeOfSizeT >= 1 && 1 <= sizeOfNode < 256
    ensures Suffices(sizeOfSizeT, sizeOfNode, ranks) <==> ranks >= MaxRanks(sizeOfSizeT, sizeOfNode)
  {
    hide Pow2;
    var f := MacroFloorLog2(sizeOfNode);
    var least := MaxRanks(sizeOfSizeT, sizeOfNode);
    MacroIsFloorLog2(sizeOfNode);
    FloorLog2Bounds(sizeOfNode);
    if ranks >= least {
      forall n: nat | n * sizeOfNode < Pow2(8 * sizeOfSizeT) ensures n < Pow2(ranks + 1) {
        ListFitsRanks(sizeOfSizeT, sizeOfNode, n);
        Pow2Monotone(least + 1, ranks + 1);
      }
    }
    if Suffices(sizeOfSizeT, sizeOfNode, ranks) && ranks < least {
      var n := Pow2(least);
      Pow2Sum(f + 1, least);
      Fits(n, sizeOfNode, Pow2(f + 1));
      Pow2Monotone(ranks + 1, least);
      assert false;
    }
  }

  lemma Fits(n: nat, s: nat, p: nat)
    requires n >= 1 && s < p
    ensures n * s < p * n
  {
  }
}
