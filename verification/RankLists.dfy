/**
  The contents of the `ranks` array, seen as a sequence of sequences: slot `i` holds a run, the empty
  sequence standing for a slot with no list. Higher slots hold older elements.
 */
module RankLists {
  import opened BinaryCounter

  /** The elements of the slots at and above `lo`, oldest first. */
  ghost function Older<E>(slots: seq<seq<E>>, lo: nat): seq<E>
    requires lo <= |slots|
    decreases |slots| - lo
  {
    if lo == |slots| then [] else Older(slots, lo + 1) + slots[lo]
  }

  ghost predicate EmptyBelow<E>(slots: seq<seq<E>>, hi: nat)
    requires hi <= |slots|
  {
    forall j :: 0 <= j < hi ==> slots[j] == []
  }

  ghost function ClearedBelow<E>(slots: seq<seq<E>>, hi: nat): (r: seq<seq<E>>)
    ensures |r| == |slots|
  {
    seq(|slots|, j requires 0 <= j < |slots| => if j < hi then [] else slots[j])
  }

  lemma {:induction false} OlderSame<E>(slots: seq<seq<E>>, slots': seq<seq<E>>, lo: nat)
    requires lo <= |slots| == |slots'|
    requires forall j :: lo <= j < |slots| ==> slots[j] == slots'[j]
    ensures Older(slots, lo) == Older(slots', lo)
    decreases |slots| - lo
  {
    if lo < |slots| {
      OlderSame(slots, slots', lo + 1);
    }
  }

  lemma {:induction false} OlderSkipsEmpty<E>(slots: seq<seq<E>>, hi: nat)
    requires hi <= |slots| && EmptyBelow(slots, hi)
    ensures Older(slots, 0) == Older(slots, hi)
  {
    if hi > 0 {
      OlderSkipsEmpty(slots, hi - 1);
      assert Older(slots, hi - 1) == Older(slots, hi) + [];
    }
  }

  lemma {:induction false} OlderOfEmpty<E>(slots: seq<seq<E>>, lo: nat)
    requires lo <= |slots| && forall j :: lo <= j < |slots| ==> slots[j] == []
    ensures Older(slots, lo) == []
    decreases |slots| - lo
  {
    if lo < |slots| {
      OlderOfEmpty(slots, lo + 1);
    }
  }

  /** Emptying the lowest occupied slot removes its elements from the young end. */
  lemma TakeLowest<E>(slots: seq<seq<E>>, i: nat)
    requires i < |slots| && EmptyBelow(slots, i)
    ensures Older(slots, 0) == Older(slots[i := []], 0) + slots[i]
  {
    var rest := slots[i := []];
    OlderSkipsEmpty(slots, i);
    OlderSkipsEmpty(rest, i + 1);
    OlderSame(slots, rest, i + 1);
  }

  /** Filling a slot with nothing at or below it adds the elements at the young end. */
  lemma PutLowest<E>(slots: seq<seq<E>>, i: nat, block: seq<E>)
    requires i < |slots| && EmptyBelow(slots, i + 1)
    ensures Older(slots[i := block], 0) == Older(slots, 0) + block
  {
    var full := slots[i := block];
    TakeLowest(full, i);
    assert full[i := []] == slots;
  }

  lemma ClearNothing<E>(slots: seq<seq<E>>, hi: nat)
    requires hi <= |slots| && EmptyBelow(slots, hi)
    ensures ClearedBelow(slots, hi) == slots
  {
  }

  lemma ClearNext<E>(slots: seq<seq<E>>, i: nat)
    requires i < |slots|
    ensures EmptyBelow(ClearedBelow(slots, i), i) && ClearedBelow(slots, i)[i] == slots[i]
    ensures ClearedBelow(slots, i)[i := []] == ClearedBelow(slots, i + 1)
  {
  }

  lemma ClearTwice<E>(slots: seq<seq<E>>, lo: nat, hi: nat)
    requires lo <= hi <= |slots|
    ensures ClearedBelow(ClearedBelow(slots, lo), hi) == ClearedBelow(slots, hi)
  {
  }

  lemma ClearPastEnd<E>(slots: seq<seq<E>>, lo: nat, hi: nat)
    requires lo <= hi <= |slots| && forall j :: lo <= j < |slots| ==> slots[j] == []
    ensures ClearedBelow(slots, lo) == ClearedBelow(slots, hi)
    ensures EmptyBelow(ClearedBelow(slots, hi), |slots|)
  {
  }

  // ----- Counting comparisons

  /** The most comparisons a merge of two lists of these lengths can make. */
  function MergeCalls(m: nat, n: nat): nat {
    if m == 0 || n == 0 then 0 else m + n - 1
  }

  ghost function Total<E>(slots: seq<seq<E>>, hi: nat): nat
    requires hi <= |slots|
  {
    if hi == 0 then 0 else Total(slots, hi - 1) + |slots[hi - 1]|
  }

  /** The most comparisons made when slots `0..hi` are merged, from low to high, into a list of `n` elements. */
  ghost function SweepCalls<E>(slots: seq<seq<E>>, hi: nat, n: nat): nat
    requires hi <= |slots|
  {
    if hi == 0 then 0
    else SweepCalls(slots, hi - 1, n) + MergeCalls(|slots[hi - 1]|, n + Total(slots, hi - 1))
  }

  /**
    The most comparisons made by an insertion of a list of `len` elements: the lower ranks are swept into one list,
    which is merged with the new one, and the full slots from `rank` up to `carry` follow.
   */
  ghost function InsertCalls<E>(slots: seq<seq<E>>, n: nat, rank: nat, carry: nat, len: nat): nat
    requires n <= |slots| && carry <= |slots|
  {
    var low := if rank > n then n else rank;
    SweepCalls(slots, low, 0) + MergeCalls(Total(slots, low), len) +
    if rank > n then 0 else SweepCalls(ClearedBelow(slots, low), carry, len + Total(slots, low))
  }

  lemma InsertCallsRank0<E>(slots: seq<seq<E>>, n: nat, carry: nat, len: nat)
    requires n <= |slots| && carry <= |slots|
    ensures InsertCalls(slots, n, 0, carry, len) == SweepCalls(slots, carry, len)
  {
    StartCarry(slots, 0);
  }

  lemma SweepNext<E>(slots: seq<seq<E>>, i: nat, n: nat)
    requires i < |slots|
    ensures Total(slots, i + 1) == Total(slots, i) + |slots[i]|
    ensures SweepCalls(slots, i + 1, n) == SweepCalls(slots, i, n) + MergeCalls(|slots[i]|, n + Total(slots, i))
    ensures Pow2(i + 2) == 2 * Pow2(i + 1)
  {
  }

  lemma {:induction false} NothingToSweep<E>(slots: seq<seq<E>>, hi: nat, n: nat)
    requires hi <= |slots| && EmptyBelow(slots, hi)
    ensures Total(slots, hi) == 0 && SweepCalls(slots, hi, n) == 0
  {
    if hi > 0 {
      NothingToSweep(slots, hi - 1, n);
    }
  }

  lemma {:induction false} TotalCleared<E>(slots: seq<seq<E>>, lo: nat, hi: nat)
    requires lo <= hi <= |slots|
    ensures Total(slots, lo) + Total(ClearedBelow(slots, lo), hi) == Total(slots, hi)
  {
    if lo < hi {
      TotalCleared(slots, lo, hi - 1);
    } else {
      NothingToSweep(ClearedBelow(slots, lo), lo, 0);
    }
  }

  lemma StartCarry<E>(slots: seq<seq<E>>, start: nat)
    requires start <= |slots|
    ensures EmptyBelow(ClearedBelow(slots, start), start)
    ensures forall j :: start <= j < |slots| ==> ClearedBelow(slots, start)[j] == slots[j]
    ensures start == 0 ==> ClearedBelow(slots, start) == slots && Total(slots, start) == 0
  {
  }

  lemma EndCarry<E>(slots: seq<seq<E>>, start: nat, carry: nat)
    requires start <= carry <= |slots|
    ensures ClearedBelow(ClearedBelow(slots, start), carry) == ClearedBelow(slots, carry)
    ensures Total(slots, start) + Total(ClearedBelow(slots, start), carry) == Total(slots, carry)
  {
    ClearTwice(slots, start, carry);
    TotalCleared(slots, start, carry);
  }

  lemma FreeUpTo<E>(slots: seq<seq<E>>, carry: nat)
    requires carry <= |slots| && (carry < |slots| ==> slots[carry] == [])
    ensures forall j :: 0 <= j <= carry && j < |slots| ==> ClearedBelow(slots, carry)[j] == []
  {
  }

  /** A sweep that stops below the lowest occupied slot finds nothing. */
  lemma SweepShort<E>(slots: seq<seq<E>>, blocks: seq<seq<E>>, upto: nat, lowest: nat, n: nat)
    requires upto <= lowest <= |slots| == |blocks| && EmptyBelow(slots, lowest) && EmptyBelow(blocks, lowest)
    ensures ClearedBelow(slots, upto) == slots == ClearedBelow(slots, lowest)
    ensures ClearedBelow(blocks, upto) == blocks == ClearedBelow(blocks, lowest)
    ensures Total(slots, upto) == Total(slots, lowest) == 0
    ensures SweepCalls(slots, upto, n) == SweepCalls(slots, lowest, n) == 0
  {
    NothingToSweep(slots, upto, n);
    NothingToSweep(slots, lowest, n);
  }

  lemma {:induction false} TotalAboveIsConstant<E>(slots: seq<seq<E>>, lo: nat, hi: nat)
    requires lo <= hi <= |slots| && forall j :: lo <= j < hi ==> slots[j] == []
    ensures Total(slots, hi) == Total(slots, lo)
  {
    if lo < hi {
      TotalAboveIsConstant(slots, lo, hi - 1);
    }
  }

  // ----- The slots as a binary counter

  /** After `k` insertions at rank 0: slot `i` is occupied exactly when bit `i` of `k` is set, by 2^(i+1) elements. */
  ghost predicate Counts<E>(slots: seq<seq<E>>, k: nat) {
    && BitLength(k) <= |slots|
    && forall i :: 0 <= i < |slots| ==> |slots[i]| == if Bit(k, i) then Pow2(i + 1) else 0
  }

  /** Comparisons already spent on the runs in slots `0..hi`: a run of 2p elements at rank i cost at most i*2p + 1. */
  ghost function Spent<E>(slots: seq<seq<E>>, hi: nat): nat
    requires hi <= |slots|
  {
    if hi == 0 then 0
    else Spent(slots, hi - 1) + if slots[hi - 1] == [] then 0 else (hi - 1) * |slots[hi - 1]| + 1
  }

  lemma {:induction false} SpentSame<E>(slots: seq<seq<E>>, slots': seq<seq<E>>, lo: nat, hi: nat)
    requires lo <= hi <= |slots| == |slots'|
    requires forall j :: lo <= j < hi ==> slots[j] == slots'[j]
    ensures Spent(slots, hi) - Spent(slots, lo) == Spent(slots', hi) - Spent(slots', lo)
  {
    if lo < hi {
      SpentSame(slots, slots', lo, hi - 1);
    }
  }

  lemma {:induction false} SpentAbove<E>(slots: seq<seq<E>>, lo: nat, hi: nat)
    requires lo <= hi <= |slots| && forall j :: lo <= j < hi ==> slots[j] == []
    ensures Spent(slots, hi) == Spent(slots, lo)
  {
    if lo < hi {
      SpentAbove(slots, lo, hi - 1);
    }
  }

  lemma {:induction false} SpentNothing<E>(slots: seq<seq<E>>, hi: nat)
    requires hi <= |slots| && EmptyBelow(slots, hi)
    ensures Spent(slots, hi) == 0
  {
    if hi > 0 {
      SpentNothing(slots, hi - 1);
    }
  }

  lemma OneMoreCarry(i: nat, p: nat, spent: nat)
    requires i > 0 && spent + 1 <= (i - 1) * p + 1
    ensures spent + 1 + ((i - 1) * p + 1) + (2 * p - 1) <= i * (2 * p) + 1
  {
    assert i * (2 * p) == 2 * ((i - 1) * p) + 2 * p;
  }

  /** A carry through the full slots below `i` stays within what a run at rank `i` is allowed. */
  lemma {:induction false} CarryCost<E>(slots: seq<seq<E>>, i: nat)
    requires i <= |slots| && forall j :: 0 <= j < i ==> |slots[j]| == Pow2(j + 1)
    ensures 2 + Total(slots, i) == Pow2(i + 1)
    ensures Spent(slots, i) + SweepCalls(slots, i, 2) + 1 <= i * Pow2(i + 1) + 1
  {
    if i == 0 {
      assert Pow2(1) == 2;
    } else {
      CarryCost(slots, i - 1);
      SweepNext(slots, i - 1, 2);
      SpentNext(slots, i - 1);
      OneMoreCarry(i, Pow2(i), Spent(slots, i - 1) + SweepCalls(slots, i - 1, 2));
    }
  }

  lemma SpentNext<E>(slots: seq<seq<E>>, i: nat)
    requires i < |slots| && slots[i] != []
    ensures Spent(slots, i + 1) == Spent(slots, i) + i * |slots[i]| + 1
  {
  }

  lemma OneMoreRank(n: nat, m: nat, h: nat, spent: nat)
    requires spent <= n * h
    ensures spent + (if m == 0 then 0 else h * m + 1) + MergeCalls(m, n) <= (n + m) * (h + 1)
  {
    assert (n + m) * (h + 1) == n * h + m * h + n + m;
  }

  /** Sweeping everything at the end costs at most one comparison for each element and each rank not yet paid for. */
  lemma {:induction false} FinalSweepCost<E>(slots: seq<seq<E>>, hi: nat, n: nat)
    requires hi <= |slots|
    ensures Spent(slots, hi) + SweepCalls(slots, hi, n) <= (n + Total(slots, hi)) * hi
  {
    if hi > 0 {
      FinalSweepCost(slots, hi - 1, n);
      OneMoreRank(n + Total(slots, hi - 1), |slots[hi - 1]|, hi - 1,
                  Spent(slots, hi - 1) + SweepCalls(slots, hi - 1, n));
    }
  }

  lemma CountsAfter<E>(slots: seq<seq<E>>, k: nat, carry: nat, run: seq<E>)
    requires Counts(slots, k) && carry < |slots| && carry <= BitLength(k)
    requires forall j :: 0 <= j < carry ==> Bit(k, j)
    requires !Bit(k, carry) && |run| == Pow2(carry + 1)
    ensures Counts(ClearedBelow(slots, carry)[carry := run], k + 1) && LowestBit(k + 1, carry)
    ensures BitLength(k + 1) == if carry < BitLength(k) then BitLength(k) else carry + 1
  {
    hide Bit, BitLength, Pow2;
    Increment(k, k + 1, carry);
    IncrementLength(k, carry);
    var after := ClearedBelow(slots, carry)[carry := run];
    forall i | 0 <= i < |after| ensures |after[i]| == if Bit(k + 1, i) then Pow2(i + 1) else 0 {
      assert i > carry ==> Bit(k + 1, i) == Bit(k, i);
    }
  }

  lemma SpentAfter<E>(slots: seq<seq<E>>, carry: nat, run: seq<E>)
    requires carry < |slots| && slots[carry] == [] && |run| == Pow2(carry + 1)
    requires Spent(slots, carry) + SweepCalls(slots, carry, 2) + 1 <= carry * Pow2(carry + 1) + 1
    ensures Spent(slots, |slots|) + SweepCalls(slots, carry, 2) + 1
         <= Spent(ClearedBelow(slots, carry)[carry := run], |slots|)
  {
    hide Pow2, SweepCalls;
    var after := ClearedBelow(slots, carry)[carry := run];
    SpentNothing(after, carry);
    SpentSame(slots, after, carry + 1, |slots|);
    SpentNext(after, carry);
  }

  /** One rank-0 insertion of two elements moves the counter from `k` to `k + 1`. */
  lemma CountsStep<E>(slots: seq<seq<E>>, k: nat, carry: nat, run: seq<E>)
    requires Counts(slots, k) && carry < |slots|
    requires carry <= BitLength(k)
    requires forall j :: 0 <= j < carry ==> slots[j] != []
    requires carry < BitLength(k) ==> slots[carry] == []
    requires |run| == 2 + Total(slots, carry)
    ensures Counts(ClearedBelow(slots, carry)[carry := run], k + 1) && LowestBit(k + 1, carry)
    ensures BitLength(k + 1) == if carry < BitLength(k) then BitLength(k) else carry + 1
    ensures Spent(slots, |slots|) + SweepCalls(slots, carry, 2) + 1
         <= Spent(ClearedBelow(slots, carry)[carry := run], |slots|)
  {
    hide Bit, BitLength, Pow2, Total, Spent, SweepCalls, ClearedBelow;
    forall j | 0 <= j < carry ensures Bit(k, j) { assert slots[j] != []; }
    if carry == BitLength(k) { NoBitsAbove(k, carry); }
    assert !Bit(k, carry);
    assert slots[carry] == [];
    CarryCost(slots, carry);
    CountsAfter(slots, k, carry, run);
    SpentAfter(slots, carry, run);
  }

  /** If the carry runs through every slot, the counter was at its last value. */
  lemma CountsFull<E>(slots: seq<seq<E>>, k: nat)
    requires Counts(slots, k)
    ensures (forall j :: 0 <= j < |slots| ==> slots[j] != []) <==> k + 1 == Pow2(|slots|)
  {
    BitLengthBounds(k);
    if forall j :: 0 <= j < |slots| ==> slots[j] != [] {
      forall j | 0 <= j < |slots| ensures Bit(k, j) { assert slots[j] != []; }
      AllOnes(k, |slots|);
    }
    if k + 1 == Pow2(|slots|) {
      forall j | 0 <= j < |slots| ensures slots[j] != [] {
        PredecessorOfPow2(|slots|, j);
      }
    }
  }

  /** Where `insert_list` puts a list of the given rank when the slots from `n` on are unused. */
  ghost predicate CarryStops<E>(slots: seq<seq<E>>, n: nat, rank: nat, carry: nat)
    requires n <= |slots|
  {
    if rank > n then
      carry == if rank > |slots| then |slots| else rank
    else
      && rank <= carry <= n
      && (forall j :: rank <= j < carry ==> slots[j] != [])
      && (carry < n ==> slots[carry] == [])
  }

  /**
    The state after `k` insertions at rank 0: a binary counter showing `k` as long as `k` fits, with every comparison
    made so far accounted for by the runs in the slots; after that, the branch for a full array has been taken.
   */
  ghost predicate Counter<E>(slots: seq<seq<E>>, n: nat, calls: nat, overflowed: bool, k: nat) {
    if overflowed then
      k >= Pow2(|slots|)
    else
      && k < Pow2(|slots|)
      && Counts(slots, k)
      && n == BitLength(k)
      && calls <= Spent(slots, |slots|)
  }

  lemma CounterStart<E>(slots: seq<seq<E>>)
    requires EmptyBelow(slots, |slots|)
    ensures Counter(slots, 0, 0, false, 0)
  {
    forall i | 0 <= i < |slots| ensures !Bit(0, i) { NoBitsAbove(0, i); }
  }

  lemma CounterStep<E>(slots: seq<seq<E>>, n: nat, calls: nat, overflowed: bool, k: nat, carry: nat, run: seq<E>,
                       slots': seq<seq<E>>, n': nat, calls': nat, overflowed': bool)
    requires |slots| >= 1 && n <= |slots| && carry <= |slots|
    requires Counter(slots, n, calls, overflowed, k) && CarryStops(slots, n, 0, carry)
    requires forall j :: n <= j < |slots| ==> slots[j] == []
    requires var at := if carry == |slots| then carry - 1 else carry;
      slots' == ClearedBelow(slots, carry)[at := run] && n' == if at >= n then at + 1 else n
    requires |run| == 2 + Total(slots, carry)
    requires calls' <= calls + 1 + SweepCalls(slots, carry, 2)
    requires overflowed' == (overflowed || carry == |slots|)
    ensures Counter(slots', n', calls', overflowed', k + 1)
    ensures !overflowed' ==> LowestBit(k + 1, carry)
  {
    if !overflowed {
      CountsFull(slots, k);
      if carry < |slots| {
        CountsStep(slots, k, carry, run);
        BitLengthBounds(k + 1);
        Pow2Monotone(BitLength(k + 1), |slots|);
      }
    }
  }

  /** Everything is swept at the end: no block is left, and the comparisons fit n * floor (log2 n). */
  lemma CounterEnd<E>(slots: seq<seq<E>>, n: nat, calls: nat, k: nat, rest: nat)
    requires n <= |slots| && rest <= 1 && forall j :: n <= j < |slots| ==> slots[j] == []
    requires Counter(slots, n, calls, false, k) && rest + Total(slots, n) == 2 * k + rest
    ensures 2 * k + rest >= 1 ==>
      calls + SweepCalls(slots, n, rest) <= (2 * k + rest) * FloorLog2(2 * k + rest)
  {
    FinalSweepCost(slots, n, rest);
    SpentAbove(slots, n, |slots|);
    if 2 * k + rest >= 1 {
      assert (2 * k + rest) / 2 == k;
      assert FloorLog2(2 * k + rest) == BitLength(k) == n;
    }
  }

  lemma AllCleared<E>(slots: seq<seq<E>>, n: nat)
    requires n <= |slots| && forall j :: n <= j < |slots| ==> slots[j] == []
    ensures Older(ClearedBelow(slots, n), 0) == []
  {
    OlderOfEmpty(ClearedBelow(slots, n), 0);
  }

  lemma CounterOverflow<E>(slots: seq<seq<E>>, n: nat, calls: nat, overflowed: bool, k: nat)
    requires Counter(slots, n, calls, overflowed, k)
    ensures overflowed <==> k >= Pow2(|slots|)
  {
  }

  lemma OverflowLength(k: nat, rest: nat, maxRanks: nat)
    requires rest <= 1
    ensures k >= Pow2(maxRanks) <==> 2 * k + rest >= Pow2(maxRanks + 1)
  {
    assert Pow2(maxRanks + 1) == 2 * Pow2(maxRanks);
  }

  /** The whole sort, from what holds after `k` insertions and a last sweep. */
  lemma CounterTotals<E>(slots: seq<seq<E>>, n: nat, calls: nat, overflowed: bool, k: nat, rest: nat, calls': nat)
    requires n <= |slots| && rest <= 1 && forall j :: n <= j < |slots| ==> slots[j] == []
    requires Counter(slots, n, calls, overflowed, k) && Total(slots, n) == 2 * k
    requires calls' <= calls + SweepCalls(slots, n, rest)
    ensures overflowed <==> 2 * k + rest >= Pow2(|slots| + 1)
    ensures !overflowed && 2 * k + rest >= 1 ==> calls' <= (2 * k + rest) * FloorLog2(2 * k + rest)
  {
    hide Counter, Total, SweepCalls, Pow2, FloorLog2;
    CounterOverflow(slots, n, calls, overflowed, k);
    OverflowLength(k, rest, |slots|);
    if !overflowed {
      CounterEnd(slots, n, calls, k, rest);
    }
  }
}
