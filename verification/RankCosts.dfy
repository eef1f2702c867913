/**
  Comparisons when lists of any rank are inserted. A node in slot `i` stands for at most `2 * i` comparisons already
  made; moving it up pays for the merges it goes through.
 */
module RankCosts {
  import opened BinaryCounter
  import opened RankLists

  /** The comparisons the nodes in slots `0..hi` stand for. */
  ghost function RankCost<E>(slots: seq<seq<E>>, hi: nat): nat
    requires hi <= |slots|
  {
    if hi == 0 then 0 else RankCost(slots, hi - 1) + 2 * ((hi - 1) * |slots[hi - 1]|)
  }

  /** Every element counted once for each slot between its own and `hi`, its own included. */
  ghost function Climb<E>(slots: seq<seq<E>>, hi: nat): nat
    requires hi <= |slots|
  {
    if hi == 0 then 0 else Climb(slots, hi - 1) + Total(slots, hi)
  }

  lemma OneSlotUp(h: nat, t: nat, m: nat)
    ensures 2 * (h * t) + 2 * (h * m) + 2 * (t + m) == 2 * ((h + 1) * (t + m))
  {
    assert h * (t + m) == h * t + h * m;
    assert (h + 1) * (t + m) == h * (t + m) + (t + m);
  }

  /** Lifting the elements below `hi` into slot `hi` adds twice the number of slots each one climbs. */
  lemma {:induction false} ClimbPays<E>(slots: seq<seq<E>>, hi: nat)
    requires hi <= |slots|
    ensures RankCost(slots, hi) + 2 * Climb(slots, hi) == 2 * (hi * Total(slots, hi))
  {
    if hi > 0 {
      ClimbPays(slots, hi - 1);
      OneSlotUp(hi - 1, Total(slots, hi - 1), |slots[hi - 1]|);
    }
  }

  lemma NextSlot(h: nat, lo: nat, n: nat, m: nat, t: nat, calls: nat, climb: nat)
    requires lo <= h && calls <= climb + (h - lo) * n
    ensures calls + MergeCalls(m, n + t) <= climb + (t + m) + (h + 1 - lo) * n
  {
    assert (h + 1 - lo) * n == (h - lo) * n + n;
  }

  /** A sweep of slots `lo..hi` into a list of `n` elements. */
  lemma {:induction false} SweepClimbs<E>(slots: seq<seq<E>>, lo: nat, hi: nat, n: nat)
    requires lo <= hi <= |slots| && EmptyBelow(slots, lo)
    ensures SweepCalls(slots, hi, n) <= Climb(slots, hi) + (hi - lo) * n
  {
    if hi == lo {
      NothingToSweep(slots, lo, n);
    } else {
      SweepClimbs(slots, lo, hi - 1, n);
      NextSlot(hi - 1, lo, n, |slots[hi - 1]|, Total(slots, hi - 1), SweepCalls(slots, hi - 1, n),
               Climb(slots, hi - 1));
    }
  }

  lemma {:induction false} NothingClimbs<E>(slots: seq<seq<E>>, hi: nat)
    requires hi <= |slots| && EmptyBelow(slots, hi)
    ensures Climb(slots, hi) == RankCost(slots, hi) == Total(slots, hi) == 0
  {
    if hi > 0 {
      NothingClimbs(slots, hi - 1);
    }
  }

  /** First everything below `lo` climbs to `lo`, then all of it together with the slots from `lo` on. */
  lemma {:induction false} ClimbInStages<E>(slots: seq<seq<E>>, lo: nat, hi: nat)
    requires lo <= hi <= |slots|
    ensures Climb(slots, hi) == Climb(slots, lo) + Climb(ClearedBelow(slots, lo), hi) + (hi - lo) * Total(slots, lo)
  {
    hide ClearedBelow;
    StartCarry(slots, lo);
    if lo == hi {
      NothingClimbs(ClearedBelow(slots, lo), lo);
    } else {
      ClimbInStages(slots, lo, hi - 1);
      TotalCleared(slots, lo, hi);
      var t := Total(slots, lo);
      assert (hi - lo) * t == (hi - 1 - lo) * t + t;
    }
  }

  /** The sweep of the lower ranks, and the merge of its result with the new list. */
  lemma LowRanksClimb<E>(slots: seq<seq<E>>, low: nat, len: nat)
    requires low <= |slots|
    ensures SweepCalls(slots, low, 0) + MergeCalls(Total(slots, low), len)
         <= 2 * Climb(slots, low) + if low == 0 then 0 else len
  {
    SweepClimbs(slots, 0, low, 0);
  }

  lemma StagesAdd(len: nat, t: nat, low: nat, carry: nat)
    requires low <= carry
    ensures (carry - low) * (len + t) + (if low == 0 then 0 else len) <= carry * len + (carry - low) * t
  {
    assert (carry - low) * (len + t) == (carry - low) * len + (carry - low) * t;
    assert carry * len == (carry - low) * len + low * len;
    if low > 0 { assert low * len == (low - 1) * len + len; }
  }

  /** From slot `low` on, the slots below it being swept already. */
  lemma HighRanksClimb<E>(slots: seq<seq<E>>, low: nat, carry: nat, len: nat)
    requires low <= carry <= |slots|
    ensures Climb(slots, low)
          + SweepCalls(ClearedBelow(slots, low), carry, len + Total(slots, low)) + (if low == 0 then 0 else len)
         <= Climb(slots, carry) + carry * len
  {
    hide ClearedBelow, Climb, SweepCalls, Total;
    StartCarry(slots, low);
    SweepClimbs(ClearedBelow(slots, low), low, carry, len + Total(slots, low));
    ClimbInStages(slots, low, carry);
    StagesAdd(len, Total(slots, low), low, carry);
  }

  lemma ClimbsOn<E>(slots: seq<seq<E>>, low: nat, carry: nat)
    requires low <= carry <= |slots|
    ensures Climb(slots, low) <= Climb(slots, carry)
  {
    ClimbInStages(slots, low, carry);
  }

  /** The three parts of an insertion. */
  lemma InsertStages<E>(slots: seq<seq<E>>, n: nat, rank: nat, carry: nat, len: nat)
    requires n <= |slots| && CarryStops(slots, n, rank, carry)
    ensures var low := if rank > n then n else rank;
      && low <= carry
      && InsertCalls(slots, n, rank, carry, len) <=
           SweepCalls(slots, low, 0) + MergeCalls(Total(slots, low), len) +
           SweepCalls(ClearedBelow(slots, low), carry, len + Total(slots, low))
  {
    hide ClearedBelow, SweepCalls, Total, MergeCalls;
  }

  /** An insertion that ends in slot `carry` costs no more than what its elements stand for there and did not before. */
  lemma InsertClimbs<E>(slots: seq<seq<E>>, n: nat, rank: nat, carry: nat, len: nat)
    requires n <= |slots| && CarryStops(slots, n, rank, carry)
    ensures InsertCalls(slots, n, rank, carry, len) <= 2 * Climb(slots, carry) + carry * len
  {
    hide InsertCalls, ClearedBelow, Climb, SweepCalls, Total, MergeCalls;
    var low := if rank > n then n else rank;
    InsertStages(slots, n, rank, carry, len);
    hide CarryStops;
    LowRanksClimb(slots, low, len);
    HighRanksClimb(slots, low, carry, len);
    ClimbsOn(slots, low, carry);
  }

  lemma {:induction false} SameAbove<E>(slots: seq<seq<E>>, slots': seq<seq<E>>, lo: nat, hi: nat)
    requires lo <= hi <= |slots| == |slots'|
    requires forall j :: lo <= j < hi ==> slots[j] == slots'[j]
    ensures RankCost(slots, hi) - RankCost(slots, lo) == RankCost(slots', hi) - RankCost(slots', lo)
    ensures Total(slots, hi) - Total(slots, lo) == Total(slots', hi) - Total(slots', lo)
  {
    if lo < hi {
      SameAbove(slots, slots', lo, hi - 1);
    }
  }

  /** What emptying the slots below `at` and filling slot `at` changes. */
  lemma FilledAt<E>(slots: seq<seq<E>>, at: nat, run: seq<E>)
    requires at < |slots|
    ensures var after := ClearedBelow(slots, at)[at := run];
      && RankCost(after, |slots|) == RankCost(slots, |slots|) - RankCost(slots, at + 1) + 2 * (at * |run|)
      && Total(after, |slots|) == Total(slots, |slots|) - Total(slots, at + 1) + |run|
  {
    var after := ClearedBelow(slots, at)[at := run];
    NothingClimbs(after, at);
    SameAbove(slots, after, at + 1, |slots|);
  }

  /**
    What holds after insertions of any ranks: as long as the branch for a full array was not taken, the comparisons
    are paid for and the highest slot in use is occupied; it is only taken for very long inputs.
   */
  ghost predicate Paid<E>(slots: seq<seq<E>>, n: nat, calls: nat, overflowed: bool)
    requires n <= |slots|
  {
    if overflowed then
      Total(slots, |slots|) >= Pow2(|slots| + 1)
    else
      && calls <= RankCost(slots, |slots|)
      && (n > 0 ==> |slots[n - 1]| >= Pow2(n))
  }

  /** Where the carry ends, if it ends inside the array. */
  lemma StopsAtFree<E>(slots: seq<seq<E>>, n: nat, rank: nat, carry: nat)
    requires n <= |slots| && carry < |slots| && CarryStops(slots, n, rank, carry)
    requires forall j :: n <= j < |slots| ==> slots[j] == []
    ensures slots[carry] == [] && Total(slots, carry + 1) == Total(slots, carry)
    ensures RankCost(slots, carry + 1) == RankCost(slots, carry)
  {
    if carry < n { assert slots[carry] == []; }
  }

  lemma AllInLast<E>(slots: seq<seq<E>>, run: seq<E>)
    requires |slots| >= 1
    ensures ClearedBelow(slots, |slots|)[|slots| - 1 := run] == ClearedBelow(slots, |slots| - 1)[|slots| - 1 := run]
  {
  }

  /** One insertion of a list of `len` elements and of any rank. */
  lemma PaidStep<E>(slots: seq<seq<E>>, n: nat, calls: nat, overflowed: bool, rank: nat, carry: nat, len: nat,
                    run: seq<E>, slots': seq<seq<E>>, n': nat, calls': nat, overflowed': bool)
    requires |slots| >= 1 && n <= |slots| && carry <= |slots|
    requires Paid(slots, n, calls, overflowed) && CarryStops(slots, n, rank, carry)
    requires forall j :: n <= j < |slots| ==> slots[j] == []
    requires var at := if carry == |slots| then carry - 1 else carry;
      slots' == ClearedBelow(slots, carry)[at := run] && n' == if at >= n then at + 1 else n
    requires |run| == len + Total(slots, carry) && |run| >= Pow2(carry + 1)
    requires calls' <= calls + InsertCalls(slots, n, rank, carry, len)
    requires overflowed' == (overflowed || carry == |slots|)
    ensures Paid(slots', n', calls', overflowed') && Total(slots', |slots|) == Total(slots, |slots|) + len
  {
    hide InsertCalls, Pow2, Total, RankCost, ClearedBelow, CarryStops;
    if carry == |slots| {
      AllInLast(slots, run);
      FilledAt(slots, carry - 1, run);
    } else {
      FilledAt(slots, carry, run);
      StopsAtFree(slots, n, rank, carry);
      TopStays(slots, n, carry, run);
      PaidWithin(slots, n, rank, carry, len, |run|);
    }
  }

  lemma TopStays<E>(slots: seq<seq<E>>, n: nat, carry: nat, run: seq<E>)
    requires n <= |slots| && carry < |slots| && |run| >= Pow2(carry + 1)
    ensures var after, n' := ClearedBelow(slots, carry)[carry := run], if carry >= n then carry + 1 else n;
      (n > 0 ==> |slots[n - 1]| >= Pow2(n)) ==> |after[n' - 1]| >= Pow2(n')
  {
    hide Pow2;
  }

  lemma PaidWithin<E>(slots: seq<seq<E>>, n: nat, rank: nat, carry: nat, len: nat, m: nat)
    requires n <= |slots| && carry < |slots| && CarryStops(slots, n, rank, carry)
    requires m == len + Total(slots, carry)
    ensures RankCost(slots, carry) + InsertCalls(slots, n, rank, carry, len) <= 2 * (carry * m)
  {
    hide InsertCalls, Total, RankCost, Climb, CarryStops;
    InsertClimbs(slots, n, rank, carry, len);
    ClimbPays(slots, carry);
    assert carry * m == carry * len + carry * Total(slots, carry);
  }

  /** However the lists were inserted, a final sweep stays within 2 * N * floor (log2 N) comparisons for N elements. */
  lemma PaidEnd<E>(slots: seq<seq<E>>, n: nat, calls: nat, overflowed: bool, rest: nat)
    requires n <= |slots| && forall j :: n <= j < |slots| ==> slots[j] == []
    requires Paid(slots, n, calls, overflowed)
    ensures var all := rest + Total(slots, n);
      if overflowed then all >= Pow2(|slots| + 1)
      else all >= 1 ==> calls + SweepCalls(slots, n, rest) <= 2 * (all * FloorLog2(all))
  {
    hide Pow2, FloorLog2, SweepCalls, Climb;
    var t := Total(slots, n);
    NothingAbove(slots, n, |slots|);
    TotalAboveIsConstant(slots, n, |slots|);
    if !overflowed && rest + t >= 1 {
      SweepClimbs(slots, 0, n, rest);
      ClimbPays(slots, n);
      HeightIsLog(slots, n, rest + t);
      EndSum(rest, t, n, FloorLog2(rest + t));
    }
  }

  lemma {:induction false} NothingAbove<E>(slots: seq<seq<E>>, lo: nat, hi: nat)
    requires lo <= hi <= |slots| && forall j :: lo <= j < hi ==> slots[j] == []
    ensures RankCost(slots, hi) == RankCost(slots, lo)
  {
    if lo < hi {
      NothingAbove(slots, lo, hi - 1);
    }
  }

  lemma HeightIsLog<E>(slots: seq<seq<E>>, n: nat, all: nat)
    requires n <= |slots| && all >= 1 && all >= Total(slots, n) && (n > 0 ==> |slots[n - 1]| >= Pow2(n))
    ensures n <= FloorLog2(all)
  {
    FloorLog2Bounds(all);
    if n > FloorLog2(all) {
      Pow2Monotone(FloorLog2(all) + 1, n);
    }
  }

  lemma EndSum(rest: nat, t: nat, n: nat, log: nat)
    requires n <= log
    ensures 2 * (n * t) + n * rest <= 2 * ((rest + t) * log)
  {
    assert n * (rest + t) <= (rest + t) * log;
    assert n * (rest + t) == n * rest + n * t;
  }
}
