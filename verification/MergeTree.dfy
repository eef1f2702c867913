/**
  What the rank array computes, exactly: the runs and the numbers of comparisons of its sweeps and insertions, and the
  merge tree of the whole sort, as the recursion of an ordinary mergesort.
 */
module MergeTree {
  import opened BinaryCounter
  import opened RankLists
  import opened StableMerge

  /** Between the length of the shorter sequence and one less than both together. */
  lemma {:induction false} MergeCountBounds<E>(c: (E, E) -> int, xs: seq<E>, ys: seq<E>)
    ensures MergeCount(c, xs, ys) <= MergeCalls(|xs|, |ys|)
    ensures MergeCount(c, xs, ys) >= |xs| || MergeCount(c, xs, ys) >= |ys|
    decreases |xs| + |ys|
  {
    if xs != [] && ys != [] {
      if c(xs[0], ys[0]) > 0 {
        MergeCountBounds(c, xs, ys[1..]);
      } else {
        MergeCountBounds(c, xs[1..], ys);
      }
    }
  }

  // ----- Sweeps and insertions

  /** The run into which the runs in slots `0..hi` and `run` are merged, from low to high. */
  ghost function SweepRun<E>(c: (E, E) -> int, slots: seq<seq<E>>, hi: nat, run: seq<E>): seq<E>
    requires hi <= |slots|
  {
    if hi == 0 then run else Merge(c, slots[hi - 1], SweepRun(c, slots, hi - 1, run))
  }

  /** The comparisons this takes. */
  ghost function SweepCount<E>(c: (E, E) -> int, slots: seq<seq<E>>, hi: nat, run: seq<E>): nat
    requires hi <= |slots|
  {
    if hi == 0 then 0
    else SweepCount(c, slots, hi - 1, run) + MergeCount(c, slots[hi - 1], SweepRun(c, slots, hi - 1, run))
  }

  /** The part of the input found in slots `0..hi`, in input order. */
  ghost function SweepBlock<E>(blocks: seq<seq<E>>, hi: nat): seq<E>
    requires hi <= |blocks|
  {
    if hi == 0 then [] else blocks[hi - 1] + SweepBlock(blocks, hi - 1)
  }

  lemma {:induction false} SweepBounds<E>(c: (E, E) -> int, slots: seq<seq<E>>, hi: nat, run: seq<E>)
    requires hi <= |slots|
    ensures |SweepRun(c, slots, hi, run)| == |run| + Total(slots, hi)
    ensures SweepCount(c, slots, hi, run) <= SweepCalls(slots, hi, |run|)
  {
    if hi > 0 {
      SweepBounds(c, slots, hi - 1, run);
      MergeLength(c, slots[hi - 1], SweepRun(c, slots, hi - 1, run));
      MergeCountBounds(c, slots[hi - 1], SweepRun(c, slots, hi - 1, run));
    }
  }

  lemma SweepOne<E>(c: (E, E) -> int, slots: seq<seq<E>>, blocks: seq<seq<E>>, i: nat, run: seq<E>, block: seq<E>)
    requires i < |slots| == |blocks|
    ensures SweepRun(c, slots, i + 1, run) == Merge(c, slots[i], SweepRun(c, slots, i, run))
    ensures SweepCount(c, slots, i + 1, run)
         == SweepCount(c, slots, i, run) + MergeCount(c, slots[i], SweepRun(c, slots, i, run))
    ensures SweepBlock(blocks, i + 1) + block == blocks[i] + (SweepBlock(blocks, i) + block)
  {
  }

  lemma {:induction false} SweepEmpty<E>(c: (E, E) -> int, slots: seq<seq<E>>, blocks: seq<seq<E>>, hi: nat,
                                         run: seq<E>, block: seq<E>)
    requires hi <= |slots| == |blocks| && EmptyBelow(slots, hi) && EmptyBelow(blocks, hi)
    ensures SweepRun(c, slots, hi, run) == run && SweepCount(c, slots, hi, run) == 0
    ensures SweepBlock(blocks, hi) + block == block
  {
    if hi > 0 {
      SweepEmpty(c, slots, blocks, hi - 1, run, block);
      assert [] + SweepBlock(blocks, hi - 1) == SweepBlock(blocks, hi - 1);
    }
  }

  /** Emptying the lower slots first splits the input found there. */
  lemma {:induction false} SweepBlockCleared<E>(blocks: seq<seq<E>>, lo: nat, hi: nat)
    requires lo <= hi <= |blocks|
    ensures SweepBlock(ClearedBelow(blocks, lo), hi) + SweepBlock(blocks, lo) == SweepBlock(blocks, hi)
  {
    var cleared := ClearedBelow(blocks, lo);
    if lo < hi {
      SweepBlockCleared(blocks, lo, hi - 1);
      assert cleared[hi - 1] == blocks[hi - 1];
      assert (blocks[hi - 1] + SweepBlock(cleared, hi - 1)) + SweepBlock(blocks, lo)
          == blocks[hi - 1] + (SweepBlock(cleared, hi - 1) + SweepBlock(blocks, lo));
    } else {
      SweepEmpty((x: E, y: E) => 0, cleared, cleared, lo, [], []);
      assert SweepBlock(cleared, lo) == [];
    }
  }

  /** The run stored by an insertion: that of the lower ranks, then the new one, then the full slots up to `carry`. */
  ghost function InsertRun<E>(c: (E, E) -> int, slots: seq<seq<E>>, n: nat, rank: nat, carry: nat, run: seq<E>): seq<E>
    requires n <= |slots| && carry <= |slots|
  {
    var low := if rank > n then n else rank;
    var merged := Merge(c, SweepRun(c, slots, low, []), run);
    if rank > n then merged else SweepRun(c, ClearedBelow(slots, low), carry, merged)
  }

  /** The comparisons it takes. */
  ghost function InsertCount<E>(c: (E, E) -> int, slots: seq<seq<E>>, n: nat, rank: nat, carry: nat, run: seq<E>): nat
    requires n <= |slots| && carry <= |slots|
  {
    var low := if rank > n then n else rank;
    var older := SweepRun(c, slots, low, []);
    SweepCount(c, slots, low, []) + MergeCount(c, older, run) +
    if rank > n then 0 else SweepCount(c, ClearedBelow(slots, low), carry, Merge(c, older, run))
  }

  lemma InsertFromRank<E>(c: (E, E) -> int, slots: seq<seq<E>>, blocks: seq<seq<E>>, n: nat, rank: nat, carry: nat,
                          run: seq<E>, block: seq<E>)
    requires rank <= n <= |slots| == |blocks| && rank <= carry <= |slots|
    ensures var older := SweepRun(c, slots, rank, []);
      && InsertRun(c, slots, n, rank, carry, run)
           == SweepRun(c, ClearedBelow(slots, rank), carry, Merge(c, older, run))
      && InsertCount(c, slots, n, rank, carry, run)
           == SweepCount(c, slots, rank, []) + MergeCount(c, older, run) +
              SweepCount(c, ClearedBelow(slots, rank), carry, Merge(c, older, run))
      && (rank == 0 ==> Merge(c, older, run) == run && SweepCount(c, slots, rank, []) == MergeCount(c, older, run) == 0)
    ensures SweepBlock(ClearedBelow(blocks, rank), carry) + (SweepBlock(blocks, rank) + block)
         == SweepBlock(blocks, carry) + block
    ensures rank == 0 ==> SweepBlock(blocks, rank) + block == block
  {
    hide ClearedBelow;
    SweepBlockCleared(blocks, rank, carry);
    assert SweepBlock(ClearedBelow(blocks, rank), carry) + (SweepBlock(blocks, rank) + block)
        == (SweepBlock(ClearedBelow(blocks, rank), carry) + SweepBlock(blocks, rank)) + block;
  }

  lemma {:induction false} SweepBlockAbove<E>(blocks: seq<seq<E>>, lo: nat, hi: nat)
    requires lo <= hi <= |blocks| && forall j :: lo <= j < hi ==> blocks[j] == []
    ensures SweepBlock(blocks, hi) == SweepBlock(blocks, lo)
  {
    if lo < hi {
      SweepBlockAbove(blocks, lo, hi - 1);
      assert [] + SweepBlock(blocks, hi - 1) == SweepBlock(blocks, hi - 1);
    }
  }

  lemma InsertAboveAll<E>(c: (E, E) -> int, slots: seq<seq<E>>, blocks: seq<seq<E>>, n: nat, rank: nat, carry: nat,
                          run: seq<E>)
    requires n < rank && n <= carry <= |slots| == |blocks| && forall j :: n <= j < |slots| ==> blocks[j] == []
    ensures InsertRun(c, slots, n, rank, carry, run) == Merge(c, SweepRun(c, slots, n, []), run)
    ensures InsertCount(c, slots, n, rank, carry, run)
         == SweepCount(c, slots, n, []) + MergeCount(c, SweepRun(c, slots, n, []), run)
    ensures SweepBlock(blocks, carry) == SweepBlock(blocks, n)
  {
    SweepBlockAbove(blocks, n, carry);
  }

  lemma InsertRank0<E>(c: (E, E) -> int, slots: seq<seq<E>>, n: nat, carry: nat, run: seq<E>)
    requires n <= |slots| && carry <= |slots|
    ensures InsertRun(c, slots, n, 0, carry, run) == SweepRun(c, slots, carry, run)
    ensures InsertCount(c, slots, n, 0, carry, run) == SweepCount(c, slots, carry, run)
  {
    StartCarry(slots, 0);
  }

  lemma InsertBounds<E>(c: (E, E) -> int, slots: seq<seq<E>>, n: nat, rank: nat, carry: nat, run: seq<E>)
    requires n <= |slots| && carry <= |slots|
    ensures InsertCount(c, slots, n, rank, carry, run) <= InsertCalls(slots, n, rank, carry, |run|)
  {
    var low := if rank > n then n else rank;
    var older := SweepRun(c, slots, low, []);
    SweepBounds(c, slots, low, []);
    MergeCountBounds(c, older, run);
    MergeLength(c, older, run);
    SweepBounds(c, ClearedBelow(slots, low), carry, Merge(c, older, run));
  }

  // ----- The recursion of the sort

  /**
    Where the recursion splits an input of length `n`: at the largest power of two below `n`, or, for an input that the
    array cannot hold with one run for each rank, at the largest multiple of 2^maxRanks below `n`.
   */
  ghost function Split(n: nat, maxRanks: nat): (p: nat)
    requires n >= 2
    ensures 0 < p < n
  {
    FloorLog2Bounds(n - 1);
    var unit := Pow2(maxRanks);
    if n <= unit then Pow2(FloorLog2(n - 1))
    else
      DivBounds(n - 1, unit);
      unit * ((n - 1) / unit)
  }

  lemma DivBounds(a: nat, b: nat)
    requires 1 <= b <= a
    ensures 0 < b * (a / b) <= a
  {
    assert a == b * (a / b) + a % b;
    assert a / b >= 1;
  }

  /** The recursive mergesort with this split, older half first. */
  ghost function TopDown<E>(c: (E, E) -> int, maxRanks: nat, s: seq<E>): seq<E>
    decreases |s|
  {
    if |s| <= 1 then s
    else
      var p := Split(|s|, maxRanks);
      Merge(c, TopDown(c, maxRanks, s[..p]), TopDown(c, maxRanks, s[p..]))
  }

  /** The comparisons it makes. */
  ghost function TopDownCount<E>(c: (E, E) -> int, maxRanks: nat, s: seq<E>): nat
    decreases |s|
  {
    if |s| <= 1 then 0
    else
      var p := Split(|s|, maxRanks);
      TopDownCount(c, maxRanks, s[..p]) + TopDownCount(c, maxRanks, s[p..]) +
      MergeCount(c, TopDown(c, maxRanks, s[..p]), TopDown(c, maxRanks, s[p..]))
  }

  lemma {:induction false} TopDownLength<E>(c: (E, E) -> int, maxRanks: nat, s: seq<E>)
    ensures |TopDown(c, maxRanks, s)| == |s|
    decreases |s|
  {
    if |s| > 1 {
      var p := Split(|s|, maxRanks);
      TopDownLength(c, maxRanks, s[..p]);
      TopDownLength(c, maxRanks, s[p..]);
      MergeLength(c, TopDown(c, maxRanks, s[..p]), TopDown(c, maxRanks, s[p..]));
    }
  }

  /** As long as the array can hold the input, the split is at the largest power of two. */
  lemma SplitAtPower(n: nat, maxRanks: nat, i: nat)
    requires n >= 2 && Pow2(i) < n <= Pow2(i + 1) && i <= maxRanks
    ensures Split(n, maxRanks) == Pow2(i)
  {
    var unit := Pow2(maxRanks);
    BitLengthUnique(n - 1, i + 1);
    if n > unit {
      if i < maxRanks { Pow2Monotone(i + 1, maxRanks); }
      QuotientIs(n - 1, unit, 1);
    }
  }

  lemma QuotientIs(a: nat, b: nat, q: nat)
    requires b >= 1 && b * q <= a < b * q + b
    ensures a / b == q
  {
    var d := a / b;
    assert a == b * d + a % b;
    assert d < q ==> b * (d + 1) <= b * q;
    assert d > q ==> b * (q + 1) <= b * d;
  }

  /** The sizes an occupied slot can have: a power of two, and in the last slot any multiple of one. */
  ghost predicate SlotSize(i: nat, maxRanks: nat, n: nat) {
    n == Pow2(i + 1) || (i + 1 == maxRanks && n % Pow2(maxRanks) == 0)
  }

  /** The recursion splits an older block in a slot from a newer one that is not larger than the slot's unit. */
  lemma SplitAtSlot(i: nat, maxRanks: nat, older: nat, newer: nat)
    requires i < maxRanks && older > 0 && SlotSize(i, maxRanks, older) && 1 <= newer <= Pow2(i + 1)
    ensures Split(older + newer, maxRanks) == older
  {
    hide Pow2, Split;
    if older == Pow2(i + 1) {
      assert Pow2(i + 2) == 2 * Pow2(i + 1) by { Pow2Step(i + 1); }
      SplitAtPower(older + newer, maxRanks, i + 1);
    } else {
      SplitAtMultiple(older, newer, maxRanks);
    }
  }

  lemma Pow2Step(i: nat)
    ensures Pow2(i + 1) == 2 * Pow2(i)
  {
  }

  lemma SplitAtMultiple(older: nat, newer: nat, maxRanks: nat)
    requires older > 0 && older % Pow2(maxRanks) == 0 && 1 <= newer <= Pow2(maxRanks)
    ensures Split(older + newer, maxRanks) == older
  {
    hide Pow2;
    var unit := Pow2(maxRanks);
    var q := older / unit;
    assert older == unit * q;
    assert q >= 1;
    assert older >= unit;
    QuotientIs(older + newer - 1, unit, q);
  }

  lemma TopDownSplits<E>(c: (E, E) -> int, maxRanks: nat, s: seq<E>)
    requires |s| >= 2
    ensures var p := Split(|s|, maxRanks);
      && TopDown(c, maxRanks, s) == Merge(c, TopDown(c, maxRanks, s[..p]), TopDown(c, maxRanks, s[p..]))
      && TopDownCount(c, maxRanks, s)
           == TopDownCount(c, maxRanks, s[..p]) + TopDownCount(c, maxRanks, s[p..]) +
              MergeCount(c, TopDown(c, maxRanks, s[..p]), TopDown(c, maxRanks, s[p..]))
  {
  }

  lemma TopDownNothing<E>(c: (E, E) -> int, maxRanks: nat, run: seq<E>)
    ensures TopDown(c, maxRanks, []) == [] && TopDownCount(c, maxRanks, []) == 0
    ensures Merge(c, [], run) == run && MergeCount(c, [], run) == 0
    ensures Merge(c, run, []) == run && MergeCount(c, run, []) == 0
  {
  }

  lemma TreeMerge<E>(c: (E, E) -> int, i: nat, maxRanks: nat, older: seq<E>, newer: seq<E>)
    requires i < maxRanks && (older != [] ==> SlotSize(i, maxRanks, |older|)) && |newer| <= Pow2(i + 1)
    ensures TopDown(c, maxRanks, older + newer)
         == Merge(c, TopDown(c, maxRanks, older), TopDown(c, maxRanks, newer))
    ensures TopDownCount(c, maxRanks, older + newer)
         == TopDownCount(c, maxRanks, older) + TopDownCount(c, maxRanks, newer) +
            MergeCount(c, TopDown(c, maxRanks, older), TopDown(c, maxRanks, newer))
  {
    hide *;
    var s := older + newer;
    if older == [] {
      assert s == newer;
      TopDownNothing(c, maxRanks, TopDown(c, maxRanks, newer));
    } else if newer == [] {
      assert s == older;
      TopDownNothing(c, maxRanks, TopDown(c, maxRanks, older));
    } else {
      SplitAtSlot(i, maxRanks, |older|, |newer|);
      assert s[..|older|] == older && s[|older|..] == newer;
      TopDownSplits(c, maxRanks, s);
    }
  }

  // ----- The rank array holds parts of the recursion

  ghost predicate Tree<E>(c: (E, E) -> int, slots: seq<seq<E>>, blocks: seq<seq<E>>) {
    && |slots| == |blocks|
    && (forall i :: 0 <= i < |slots| ==> slots[i] == TopDown(c, |slots|, blocks[i]))
    && (forall i :: 0 <= i < |slots| && blocks[i] != [] ==> SlotSize(i, |slots|, |blocks[i]|))
  }

  /** The comparisons of the recursions on the blocks in slots `0..hi`. */
  ghost function TreeCount<E>(c: (E, E) -> int, blocks: seq<seq<E>>, hi: nat): nat
    requires hi <= |blocks|
  {
    if hi == 0 then 0 else TreeCount(c, blocks, hi - 1) + TopDownCount(c, |blocks|, blocks[hi - 1])
  }

  /** A sweep continues the recursions into the one on all the input it meets. */
  lemma {:induction false} TreeSweep<E>(c: (E, E) -> int, slots: seq<seq<E>>, blocks: seq<seq<E>>, hi: nat,
                                        run: seq<E>, block: seq<E>)
    requires Tree(c, slots, blocks) && hi <= |slots|
    requires |block| <= 2 && run == TopDown(c, |slots|, block)
    ensures var all := SweepBlock(blocks, hi) + block;
      && SweepRun(c, slots, hi, run) == TopDown(c, |slots|, all)
      && TreeCount(c, blocks, hi) + TopDownCount(c, |slots|, block) + SweepCount(c, slots, hi, run)
           == TopDownCount(c, |slots|, all)
      && (hi < |slots| ==> |all| <= Pow2(hi + 1))
  {
    hide *;
    TreeShape(c, slots, blocks);
    SweepNone(c, slots, blocks, run, block);
    if hi == 0 {
      assert TreeCount(c, blocks, 0) == 0 by { TreeCountNone(c, blocks); }
    } else {
      var newer := SweepBlock(blocks, hi - 1) + block;
      TreeSweep(c, slots, blocks, hi - 1, run, block);
      SweepOne(c, slots, blocks, hi - 1, run, block);
      TreeAt(c, slots, blocks, hi - 1);
      TreeMerge(c, hi - 1, |slots|, blocks[hi - 1], newer);
      TreeCountNext(c, blocks, hi - 1);
      Pow2Step(hi);
      if hi < |slots| && blocks[hi - 1] != [] {
        LowSlotSize(c, slots, blocks, hi - 1);
      }
    }
  }

  lemma SweepNone<E>(c: (E, E) -> int, slots: seq<seq<E>>, blocks: seq<seq<E>>, run: seq<E>, block: seq<E>)
    ensures SweepRun(c, slots, 0, run) == run && SweepCount(c, slots, 0, run) == 0
    ensures SweepBlock(blocks, 0) + block == block && Pow2(1) == 2
  {
  }

  lemma TreeCountNone<E>(c: (E, E) -> int, blocks: seq<seq<E>>)
    ensures TreeCount(c, blocks, 0) == 0
  {
  }

  lemma TreeCountNext<E>(c: (E, E) -> int, blocks: seq<seq<E>>, i: nat)
    requires i < |blocks|
    ensures TreeCount(c, blocks, i + 1) == TreeCount(c, blocks, i) + TopDownCount(c, |blocks|, blocks[i])
  {
  }

  lemma TreeAt<E>(c: (E, E) -> int, slots: seq<seq<E>>, blocks: seq<seq<E>>, i: nat)
    requires Tree(c, slots, blocks) && i < |slots|
    ensures |slots| == |blocks| && slots[i] == TopDown(c, |slots|, blocks[i])
    ensures blocks[i] != [] ==> SlotSize(i, |slots|, |blocks[i]|)
  {
    hide TopDown, SlotSize;
  }

  lemma LowSlotSize<E>(c: (E, E) -> int, slots: seq<seq<E>>, blocks: seq<seq<E>>, i: nat)
    requires Tree(c, slots, blocks) && i + 1 < |slots| && blocks[i] != []
    ensures |blocks[i]| == Pow2(i + 1)
  {
  }

  /** If all the slots below `hi` are occupied, two more elements make up the size of slot `hi`. */
  lemma {:induction false} FullSlots<E>(c: (E, E) -> int, slots: seq<seq<E>>, blocks: seq<seq<E>>, hi: nat)
    requires Tree(c, slots, blocks) && hi < |slots| && forall j :: 0 <= j < hi ==> blocks[j] != []
    ensures |SweepBlock(blocks, hi)| + 2 == Pow2(hi + 1)
  {
    if hi == 0 {
      assert Pow2(1) == 2;
    } else {
      FullSlots(c, slots, blocks, hi - 1);
      LowSlotSize(c, slots, blocks, hi - 1);
      Pow2Step(hi);
    }
  }

  /** The block stored by a rank-0 insertion has a size that fits its slot. */
  lemma StoredSize<E>(c: (E, E) -> int, slots: seq<seq<E>>, blocks: seq<seq<E>>, carry: nat)
    requires Tree(c, slots, blocks) && 1 <= |slots| && carry <= |slots|
    requires forall j :: 0 <= j < carry ==> blocks[j] != []
    ensures SlotSize(if carry == |slots| then carry - 1 else carry, |slots|, |SweepBlock(blocks, carry)| + 2)
  {
    hide Pow2, Tree;
    TreeShape(c, slots, blocks);
    if carry < |slots| {
      FullSlots(c, slots, blocks, carry);
    } else {
      FullSlots(c, slots, blocks, carry - 1);
      SlotUnit(c, slots, blocks, carry - 1);
      OneUnitMore(|blocks[carry - 1]|, Pow2(carry));
    }
  }

  lemma OneUnitMore(n: nat, unit: nat)
    requires unit >= 1 && n % unit == 0
    ensures (n + unit) % unit == 0
  {
    assert n + unit == unit * (n / unit + 1);
    QuotientIs(n + unit, unit, n / unit + 1);
  }

  lemma SlotUnit<E>(c: (E, E) -> int, slots: seq<seq<E>>, blocks: seq<seq<E>>, i: nat)
    requires Tree(c, slots, blocks) && i + 1 == |slots| && blocks[i] != []
    ensures |blocks[i]| % Pow2(i + 1) == 0
  {
    TreeAt(c, slots, blocks, i);
    UnitSize(i, |blocks[i]|);
  }

  lemma UnitSize(i: nat, n: nat)
    requires SlotSize(i, i + 1, n)
    ensures n % Pow2(i + 1) == 0
  {
    hide Pow2;
    assert n == Pow2(i + 1) ==> n == n * 1;
  }

  lemma {:induction false} TreeCountSame<E>(c: (E, E) -> int, blocks: seq<seq<E>>, blocks': seq<seq<E>>, lo: nat,
                                            hi: nat)
    requires lo <= hi <= |blocks| == |blocks'| && forall j :: lo <= j < hi ==> blocks[j] == blocks'[j]
    ensures TreeCount(c, blocks, hi) - TreeCount(c, blocks, lo)
         == TreeCount(c, blocks', hi) - TreeCount(c, blocks', lo)
  {
    if lo < hi {
      TreeCountSame(c, blocks, blocks', lo, hi - 1);
    }
  }

  lemma {:induction false} TreeCountNothing<E>(c: (E, E) -> int, blocks: seq<seq<E>>, lo: nat, hi: nat)
    requires lo <= hi <= |blocks| && forall j :: lo <= j < hi ==> blocks[j] == []
    ensures TreeCount(c, blocks, hi) == TreeCount(c, blocks, lo)
  {
    if lo < hi {
      TreeCountNothing(c, blocks, lo, hi - 1);
    }
  }

  lemma TreeCountAfter<E>(c: (E, E) -> int, blocks: seq<seq<E>>, at: nat, block: seq<E>)
    requires at < |blocks|
    ensures TreeCount(c, ClearedBelow(blocks, at)[at := block], |blocks|)
         == TreeCount(c, blocks, |blocks|) - TreeCount(c, blocks, at + 1) + TopDownCount(c, |blocks|, block)
  {
    hide TopDownCount;
    var after := ClearedBelow(blocks, at)[at := block];
    TreeCountNothing(c, after, 0, at);
    TreeCountSame(c, blocks, after, at + 1, |blocks|);
  }

  lemma ListsAndBlocks<E>(c: (E, E) -> int, slots: seq<seq<E>>, blocks: seq<seq<E>>)
    requires Tree(c, slots, blocks)
    ensures forall j :: 0 <= j < |slots| ==> (slots[j] == [] <==> blocks[j] == [])
  {
    forall j | 0 <= j < |slots| ensures slots[j] == [] <==> blocks[j] == [] {
      TopDownLength(c, |slots|, blocks[j]);
    }
  }

  lemma TreeStored<E>(c: (E, E) -> int, slots: seq<seq<E>>, blocks: seq<seq<E>>, at: nat, run: seq<E>, block: seq<E>)
    requires Tree(c, slots, blocks) && at < |slots|
    requires run == TopDown(c, |slots|, block) && SlotSize(at, |slots|, |block|)
    ensures Tree(c, ClearedBelow(slots, at)[at := run], ClearedBelow(blocks, at)[at := block])
  {
    hide SlotSize, TopDown, Pow2;
    TopDownNothing(c, |slots|, []);
    var slots', blocks' := ClearedBelow(slots, at)[at := run], ClearedBelow(blocks, at)[at := block];
    forall i | 0 <= i < |slots|
      ensures slots'[i] == TopDown(c, |slots|, blocks'[i])
      ensures blocks'[i] != [] ==> SlotSize(i, |slots|, |blocks'[i]|)
    {
      if i > at { TreeAt(c, slots, blocks, i); }
    }
  }

  /** One rank-0 insertion keeps the tree, and its comparisons are those by which the recursions grow. */
  lemma TreeStep<E>(c: (E, E) -> int, slots: seq<seq<E>>, blocks: seq<seq<E>>, n: nat, carry: nat,
                    run: seq<E>, block: seq<E>)
    requires Tree(c, slots, blocks) && |slots| >= 1
    requires n <= |slots| && carry <= |slots| && CarryStops(slots, n, 0, carry)
    requires forall j :: n <= j < |slots| ==> slots[j] == []
    requires |block| == 2 && run == TopDown(c, |slots|, block)
    ensures var at := if carry == |slots| then carry - 1 else carry;
      var all := SweepBlock(blocks, carry) + block;
      var slots' := ClearedBelow(slots, carry)[at := SweepRun(c, slots, carry, run)];
      var blocks' := ClearedBelow(blocks, carry)[at := all];
      && Tree(c, slots', blocks')
      && TreeCount(c, blocks', |slots|)
           == TreeCount(c, blocks, |slots|) + TopDownCount(c, |slots|, block) + SweepCount(c, slots, carry, run)
  {
    hide *;
    TreeShape(c, slots, blocks);
    LastSlotTaken(slots, n, carry);
    var at := if carry == |slots| then carry - 1 else carry;
    var all := SweepBlock(blocks, carry) + block;
    ListsAndBlocks(c, slots, blocks);
    TreeSweep(c, slots, blocks, carry, run, block);
    StoredSize(c, slots, blocks, carry);
    TreeStored(c, slots, blocks, at, SweepRun(c, slots, carry, run), all);
    TreeCountAfter(c, blocks, at, all);
    ClearedLast(slots, SweepRun(c, slots, carry, run));
    ClearedLast(blocks, all);
    if carry < |slots| { TreeCountNothing(c, blocks, carry, carry + 1); }
  }

  lemma TreeShape<E>(c: (E, E) -> int, slots: seq<seq<E>>, blocks: seq<seq<E>>)
    requires Tree(c, slots, blocks)
    ensures |slots| == |blocks|
  {
  }

  lemma ClearedLast<E>(slots: seq<seq<E>>, run: seq<E>)
    requires |slots| >= 1
    ensures var last := |slots| - 1;
      ClearedBelow(slots, |slots|)[last := run] == ClearedBelow(slots, last)[last := run]
  {
  }

  lemma LastSlotTaken<E>(slots: seq<seq<E>>, n: nat, carry: nat)
    requires n <= |slots| && CarryStops(slots, n, 0, carry)
    requires forall j :: n <= j < |slots| ==> slots[j] == []
    ensures carry <= |slots| && forall j :: 0 <= j < carry ==> slots[j] != []
    ensures carry < |slots| ==> slots[carry] == []
  {
    if carry < |slots| { assert slots[carry] == []; }
  }

  lemma TreeStart<E>(c: (E, E) -> int, slots: seq<seq<E>>, blocks: seq<seq<E>>)
    requires |slots| == |blocks| && EmptyBelow(slots, |slots|) && EmptyBelow(blocks, |slots|)
    ensures Tree(c, slots, blocks) && TreeCount(c, blocks, |blocks|) == 0
  {
    TreeCountNothing(c, blocks, 0, |blocks|);
  }

  /** The last sweep, with what is left over, completes the recursion. */
  lemma TreeEnd<E>(c: (E, E) -> int, slots: seq<seq<E>>, blocks: seq<seq<E>>, n: nat, rest: seq<E>)
    requires Tree(c, slots, blocks) && n <= |slots| && |rest| <= 1
    requires forall j :: n <= j < |slots| ==> slots[j] == []
    ensures var all := SweepBlock(blocks, n) + rest;
      && SweepRun(c, slots, n, rest) == TopDown(c, |slots|, all)
      && TreeCount(c, blocks, |slots|) + SweepCount(c, slots, n, rest) == TopDownCount(c, |slots|, all)
  {
    hide SweepRun, SweepCount, SweepBlock, TreeCount, SlotSize;
    assert TopDown(c, |slots|, rest) == rest && TopDownCount(c, |slots|, rest) == 0;
    hide TopDown, TopDownCount;
    ListsAndBlocks(c, slots, blocks);
    TreeSweep(c, slots, blocks, n, rest, rest);
    TreeCountNothing(c, blocks, n, |slots|);
  }

  // ----- How many comparisons that is

  lemma HalfMore(h: nat, n: nat, a: nat, b: nat, m: nat)
    requires h >= 1 && 2 * a >= (h - 1) * n && 2 * b >= (h - 1) * n && m >= n
    ensures 2 * (a + b + m) >= h * (2 * n)
  {
    assert h * (2 * n) == 2 * ((h - 1) * n) + 2 * n;
  }

  /** For 2^h elements no comparator gets by with fewer than h * 2^(h - 1) comparisons. */
  lemma {:induction false} TopDownCountAtLeast<E>(c: (E, E) -> int, maxRanks: nat, s: seq<E>, h: nat)
    requires |s| == Pow2(h) && h <= maxRanks + 1
    ensures 2 * TopDownCount(c, maxRanks, s) >= h * |s|
    decreases h
  {
    hide TopDown, TopDownCount, MergeCount, Split;
    if h > 0 {
      var n := Pow2(h - 1);
      var older, newer := s[..n], s[n..];
      SplitAtPower(|s|, maxRanks, h - 1);
      TopDownSplits(c, maxRanks, s);
      TopDownCountAtLeast(c, maxRanks, older, h - 1);
      TopDownCountAtLeast(c, maxRanks, newer, h - 1);
      TopDownLength(c, maxRanks, older);
      TopDownLength(c, maxRanks, newer);
      MergeCountBounds(c, TopDown(c, maxRanks, older), TopDown(c, maxRanks, newer));
      HalfMore(h, n, TopDownCount(c, maxRanks, older), TopDownCount(c, maxRanks, newer),
               MergeCount(c, TopDown(c, maxRanks, older), TopDown(c, maxRanks, newer)));
    }
  }
}
