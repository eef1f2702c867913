/**
  The rank array of the mergesort and its driver: `struct sort_info`, `sweep_up`, `insert_list` and `do_sort`
  of headers/mono/eglib/sort.frag.h, for any number of ranks.
 */
module RankedSort {
  import opened BinaryCounter
  import opened ListSort
  import opened MergeTree
  import opened RankCosts
  import opened RankLists
  import opened StableMerge

  /** An array slot before and after its first assignment; only an assigned slot can be read. */
  datatype Slot<T> = Uninitialised | Holds(list: Node?<T>)

  // ----- The value part of the invariant: runs, block sizes, and no node in two slots

  /** Every node of slot `i`, and only such a node, is at home in `i`; in particular the slots share no node. */
  ghost predicate AtHome<E>(lists: seq<seq<E>>, home: map<E, nat>) {
    forall i, n {:trigger n in lists[i]} :: 0 <= i < |lists| && n in lists[i] ==> n in home && home[n] == i
  }

  ghost predicate Housed<E>(lists: seq<seq<E>>, home: map<E, nat>) {
    forall i :: 0 <= i < |lists| ==> Elems(lists[i]) <= home.Keys
  }

  ghost predicate Runs<E>(c: (E, E) -> int, lists: seq<seq<E>>, blocks: seq<seq<E>>) {
    && |lists| == |blocks|
    && (forall i :: 0 <= i < |lists| ==> IsRun(c, lists[i], blocks[i]))
    && (forall i :: 0 <= i < |lists| && lists[i] != [] ==> |lists[i]| >= Pow2(i + 1))
  }

  ghost predicate Apart<E>(s: seq<E>, home: map<E, nat>) {
    forall n :: n in s ==> n !in home
  }

  ghost function MoveIn<E>(home: map<E, nat>, run: seq<E>, i: nat): (home': map<E, nat>)
    ensures home'.Keys == home.Keys + Elems(run)
  {
    home + map n | n in run :: i
  }

  lemma EmptyRun<E>(c: (E, E) -> int)
    ensures IsRun(c, [], [])
  {
  }

  lemma MergeFacts<E>(c: (E, E) -> int, lists: seq<seq<E>>, blocks: seq<seq<E>>, home: map<E, nat>, i: nat,
                      run: seq<E>, block: seq<E>)
    requires Runs(c, lists, blocks) && AtHome(lists, home) && i < |lists| && EmptyBelow(blocks, i)
    requires Distinct(lists[i]) && Distinct(run) && IsRun(c, run, block) && Apart(run, home)
    ensures IsRun(c, Merge(c, lists[i], run), blocks[i] + block)
    ensures |Merge(c, lists[i], run)| == |lists[i]| + |run|
    ensures Elems(Merge(c, lists[i], run)) == Elems(lists[i]) + Elems(run)
    ensures Apart(Merge(c, lists[i], run), home - Elems(lists[i]))
    ensures Elems(lists[i]) <= home.Keys
    ensures Older(blocks[i := []], 0) + (blocks[i] + block) == Older(blocks, 0) + block
  {
    hide Merge, IsRun, Distinct, Older;
    var merged := Merge(c, lists[i], run);
    assert Disjoint(lists[i], run);
    MergePermutes(c, lists[i], run);
    MergeDistinct(c, lists[i], run);
    forall n | n in merged ensures n !in home - Elems(lists[i]) {
      assert n in Elems(merged);
    }
    MergeRuns(c, lists[i], blocks[i], run, block);
    TakeLowest(blocks, i);
    assert Older(blocks[i := []], 0) + (blocks[i] + block) == (Older(blocks[i := []], 0) + blocks[i]) + block;
  }

  lemma ClearSlot<E>(c: (E, E) -> int, lists: seq<seq<E>>, blocks: seq<seq<E>>, home: map<E, nat>, i: nat)
    requires Runs(c, lists, blocks) && AtHome(lists, home) && i < |lists|
    ensures Runs(c, lists[i := []], blocks[i := []]) && AtHome(lists[i := []], home - Elems(lists[i]))
    ensures Housed(lists[i := []], home - Elems(lists[i]))
  {
  }

  lemma FillSlot<E>(c: (E, E) -> int, lists: seq<seq<E>>, blocks: seq<seq<E>>, home: map<E, nat>, i: nat,
                    run: seq<E>, block: seq<E>)
    requires Runs(c, lists, blocks) && AtHome(lists, home) && i < |lists| && lists[i] == []
    requires IsRun(c, run, block) && |run| >= Pow2(i + 1) && Apart(run, home)
    ensures Runs(c, lists[i := run], blocks[i := block])
    ensures AtHome(lists[i := run], MoveIn(home, run, i))
    ensures Housed(lists[i := run], MoveIn(home, run, i))
  {
  }

  class SortInfo<T> {
    var minRank: nat
    var nRanks: nat
    const func: (T, T) -> int
    const ranks: array<Slot<T>>

    ghost var lists: seq<seq<Node<T>>>   // the nodes of each slot, in list order
    ghost var blocks: seq<seq<Node<T>>>  // the part of the input each slot came from
    ghost var home: map<Node<T>, nat>    // the slot of each node in the array
    ghost var calls: nat                 // calls of `func` made by the merges
    ghost var overflowed: bool           // whether the branch for a full array has been taken

    ghost predicate Valid()
      reads `minRank, `nRanks, `lists, `blocks, `home, ranks, home.Keys`next
    {
      && |lists| == |blocks| == ranks.Length >= 1
      && minRank <= nRanks <= ranks.Length
      && Housed(lists, home)
      && AtHome(lists, home)
      && Runs(ByData(func), lists, blocks)
      && (forall i :: 0 <= i < minRank || nRanks <= i < |lists| ==> lists[i] == [])
      && (forall i :: 0 <= i < nRanks ==> ranks[i].Holds? && IsList(ranks[i].list, lists[i]))
    }

    /** The input consumed so far, in input order: higher ranks hold older nodes. */
    ghost function Contents(): seq<Node<T>>
      reads `blocks
    {
      Older(blocks, 0)
    }

    constructor (func: (T, T) -> int, maxRanks: nat)
      requires maxRanks >= 1
      ensures Valid() && this.func == func && fresh(ranks) && ranks.Length == maxRanks
      ensures minRank == nRanks == 0 && home == map[] && calls == 0 && !overflowed
      ensures Contents() == [] && |lists| == maxRanks && EmptyBelow(lists, maxRanks)
      ensures Paid(lists, nRanks, calls, overflowed)
    {
      this.func := func;
      ranks := new Slot<T>[maxRanks](_ => Uninitialised);
      minRank, nRanks := 0, 0;
      lists, blocks := seq(maxRanks, _ => []), seq(maxRanks, _ => []);
      home, calls, overflowed := map[], 0, false;
      new;
      OlderOfEmpty(blocks, 0);
    }

    /** One step of every sweep: the list of slot `i`, the older one, absorbs `list`, and the slot is emptied. */
    method Absorb(i: nat, list: Node?<T>, ghost run: seq<Node<T>>, ghost block: seq<Node<T>>)
      returns (list': Node?<T>, ghost run': seq<Node<T>>, ghost block': seq<Node<T>>)
      requires Valid() && i < nRanks && EmptyBelow(blocks, i)
      requires IsList(list, run) && IsRun(ByData(func), run, block) && Apart(run, home)
      modifies `lists, `blocks, `home, `calls, ranks, home.Keys`next, run`next
      ensures Valid()
      ensures lists == old(lists)[i := []] && blocks == old(blocks)[i := []]
      ensures home == old(home) - Elems(old(lists)[i])
      ensures IsList(list', run') && run' == Merge(ByData(func), old(lists)[i], run)
      ensures Apart(run', home)
      ensures Elems(run') <= old(home).Keys + Elems(run)
      ensures |run'| == |old(lists)[i]| + |run|
      ensures IsRun(ByData(func), run', block') && block' == old(blocks)[i] + block
      ensures Contents() + block' == old(Contents()) + block
      ensures calls == old(calls) + MergeCount(ByData(func), old(lists)[i], run)
    {
      hide Runs, AtHome, Housed, IsRun, Distinct, Disjoint, Linked, Merge, Older, NodeAt, Apart, EmptyBelow, IsList;
      ghost var n := 0;
      run', block' := Merge(ByData(func), lists[i], run), blocks[i] + block;
      ListDistinct(ranks[i].list, lists[i]);
      ListDistinct(list, run);
      MergeFacts(ByData(func), lists, blocks, home, i, run, block);
      ClearSlot(ByData(func), lists, blocks, home, i);
      list', n := MergeSlot(i, list, run);
      EmptyList<T>();
      home := home - Elems(lists[i]);
      lists, blocks, calls := lists[i := []], blocks[i := []], calls + n;
    }

    /** The same step inside a loop that has emptied the slots below `i` of what used to be `lists0`. */
    method AbsorbNext(i: nat, list: Node?<T>, ghost run: seq<Node<T>>, ghost block: seq<Node<T>>,
                      ghost lists0: seq<seq<Node<T>>>, ghost blocks0: seq<seq<Node<T>>>, ghost nodes: set<Node<T>>)
      returns (list': Node?<T>, ghost run': seq<Node<T>>, ghost block': seq<Node<T>>)
      requires Valid() && i < nRanks && |lists0| == |blocks0| == |lists|
      requires lists == ClearedBelow(lists0, i) && blocks == ClearedBelow(blocks0, i)
      requires IsList(list, run) && IsRun(ByData(func), run, block) && Apart(run, home)
      requires home.Keys + Elems(run) <= nodes
      modifies `lists, `blocks, `home, `calls, ranks, nodes`next
      ensures Valid()
      ensures lists == ClearedBelow(lists0, i + 1) && blocks == ClearedBelow(blocks0, i + 1)
      ensures home.Keys + Elems(run') <= nodes && home.Keys <= old(home).Keys
      ensures IsList(list', run') && Apart(run', home)
      ensures IsRun(ByData(func), run', block')
      ensures Contents() + block' == old(Contents()) + block
      ensures |run'| == |lists0[i]| + |run|
      ensures run' == Merge(ByData(func), lists0[i], run) && block' == blocks0[i] + block
      ensures calls == old(calls) + MergeCount(ByData(func), lists0[i], run)
      ensures lists0[i] != [] ==> |lists0[i]| >= Pow2(i + 1)
      ensures i + 1 < nRanks ==> ranks[i + 1].Holds? && (ranks[i + 1].list != null <==> lists0[i + 1] != [])
    {
      hide Runs, AtHome, Housed, IsRun, Distinct, Disjoint, Linked, Merge, Older, NodeAt, Apart, EmptyBelow, IsList,
           ClearedBelow;
      ClearNext(lists0, i);
      ClearNext(blocks0, i);
      LongEnough(i);
      assert forall k :: 0 <= k < |run| ==> run[k] in Elems(run);
      list', run', block' := Absorb(i, list, run, block);
      Occupied(i + 1);
      if i + 1 < nRanks { ClearNext(lists0, i + 1); }
    }

    /** `sweep_up`: every slot below `upto` is merged, lowest and therefore youngest first, into `list`. */
    method SweepUp(list: Node?<T>, upto: nat, ghost run: seq<Node<T>>, ghost block: seq<Node<T>>)
      returns (list': Node?<T>, ghost run': seq<Node<T>>, ghost block': seq<Node<T>>)
      requires Valid() && upto <= nRanks
      requires IsList(list, run) && IsRun(ByData(func), run, block) && Apart(run, home)
      modifies `lists, `blocks, `home, `calls, ranks, home.Keys`next, run`next
      ensures Valid()
      ensures lists == ClearedBelow(old(lists), upto) && blocks == ClearedBelow(old(blocks), upto)
      ensures home.Keys <= old(home).Keys
      ensures IsList(list', run') && Apart(run', home)
      ensures Elems(run') <= old(home).Keys + Elems(run)
      ensures |run'| == |run| + Total(old(lists), upto)
      ensures IsRun(ByData(func), run', block')
      ensures Contents() + block' == old(Contents()) + block
      ensures run' == SweepRun(ByData(func), old(lists), upto, run) && block' == SweepBlock(old(blocks), upto) + block
      ensures calls == old(calls) + SweepCount(ByData(func), old(lists), upto, run)
    {
      hide Runs, AtHome, Housed, IsRun, Distinct, Disjoint, Linked, Merge, Older, NodeAt, Apart, EmptyBelow, IsList,
           ClearedBelow, Total, SweepCalls, MergeCalls, Pow2, SweepRun, SweepCount, SweepBlock, MergeCount;
      ghost var nodes := home.Keys + Elems(run);
      list', run', block' := list, run, block;
      var i := minRank;
      EmptyBlocks();
      NothingToSweep(lists, i, |run|);
      ClearNothing(lists, i);
      ClearNothing(blocks, i);
      SweepEmpty(ByData(func), lists, blocks, i, run, block);
      while i < upto
        invariant minRank <= i <= nRanks && (i <= upto || i == minRank)
        invariant Valid()
        invariant lists == ClearedBelow(old(lists), i) && blocks == ClearedBelow(old(blocks), i)
        invariant IsList(list', run') && Apart(run', home)
        invariant home.Keys <= old(home).Keys && Elems(run') <= nodes
        invariant |run'| == |run| + Total(old(lists), i)
        invariant IsRun(ByData(func), run', block')
        invariant Contents() + block' == old(Contents()) + block
        invariant run' == SweepRun(ByData(func), old(lists), i, run)
        invariant block' == SweepBlock(old(blocks), i) + block
        invariant calls == old(calls) + SweepCount(ByData(func), old(lists), i, run)
      {
        SweepNext(old(lists), i, |run|);
        SweepOne(ByData(func), old(lists), old(blocks), i, run, block);
        list', run', block' := AbsorbNext(i, list', run', block', old(lists), old(blocks), nodes);
        i := i + 1;
      }
      if upto < i {
        SweepShort(old(lists), old(blocks), upto, i, |run|);
        SweepEmpty(ByData(func), old(lists), old(blocks), upto, run, block);
      }
    }

    /** `merge_lists (sweep_up (si, NULL, upto), list, func)` */
    method SweepInto(list: Node?<T>, upto: nat, ghost run: seq<Node<T>>, ghost block: seq<Node<T>>)
      returns (list': Node?<T>, ghost run': seq<Node<T>>, ghost block': seq<Node<T>>)
      requires Valid() && upto <= nRanks
      requires IsList(list, run) && IsRun(ByData(func), run, block) && Apart(run, home)
      modifies `lists, `blocks, `home, `calls, ranks, home.Keys`next, run`next
      ensures Valid()
      ensures lists == ClearedBelow(old(lists), upto) && blocks == ClearedBelow(old(blocks), upto)
      ensures home.Keys <= old(home).Keys
      ensures IsList(list', run') && Apart(run', home) && Elems(run') <= old(home).Keys + Elems(run)
      ensures |run'| == |run| + Total(old(lists), upto)
      ensures IsRun(ByData(func), run', block')
      ensures Contents() + block' == old(Contents()) + block
      ensures run' == Merge(ByData(func), SweepRun(ByData(func), old(lists), upto, []), run)
      ensures block' == SweepBlock(old(blocks), upto) + block
      ensures calls == old(calls) + SweepCount(ByData(func), old(lists), upto, []) +
                       MergeCount(ByData(func), SweepRun(ByData(func), old(lists), upto, []), run)
    {
      hide Runs, AtHome, Housed, IsRun, Distinct, Linked, Merge, Older, NodeAt, EmptyBelow, IsList, ClearedBelow;
      EmptyList<T>();
      EmptyRun(ByData(func));
      var swept, older, olderBlock := SweepUp(null, upto, [], []);
      assert Disjoint(older, run) && IsList(list, run);
      list', run' := MergeLoose(swept, list, older, run, olderBlock, block);
      block' := olderBlock + block;
      assert Contents() + block' == (Contents() + olderBlock) + block;
    }

    /** Merging two lists that are not in the array leaves the array alone. */
    method MergeLoose(list1: Node?<T>, list2: Node?<T>, ghost xs: seq<Node<T>>, ghost ys: seq<Node<T>>,
                      ghost block1: seq<Node<T>>, ghost block2: seq<Node<T>>)
      returns (list': Node?<T>, ghost run': seq<Node<T>>)
      requires Valid() && Apart(xs, home) && Apart(ys, home) && Disjoint(xs, ys)
      requires IsList(list1, xs) && IsRun(ByData(func), xs, block1)
      requires IsList(list2, ys) && IsRun(ByData(func), ys, block2)
      modifies `calls, xs`next, ys`next
      ensures Valid()
      ensures IsList(list', run') && run' == Merge(ByData(func), xs, ys) && Apart(run', home)
      ensures Elems(run') == Elems(xs) + Elems(ys) && |run'| == |xs| + |ys|
      ensures IsRun(ByData(func), run', block1 + block2)
      ensures calls == old(calls) + MergeCount(ByData(func), xs, ys)
    {
      hide Valid, IsRun, Linked, Merge, NodeAt;
      run' := Merge(ByData(func), xs, ys);
      MergePermutes(ByData(func), xs, ys);
      MergeDistinct(ByData(func), xs, ys);
      MergeRuns(ByData(func), xs, block1, ys, block2);
      ghost var n;
      list', n := MergeLists(list1, list2, func, xs, ys);
      calls := calls + n;
    }

    /** The end of `insert_list`: `list` goes to slot `carry`, or to the last slot when every slot was full. */
    method Store(carry: nat, list: Node?<T>, ghost run: seq<Node<T>>, ghost block: seq<Node<T>>)
      requires Valid() && carry <= ranks.Length
      requires forall j :: nRanks <= j < carry ==> ranks[j] == Holds(null)
      requires forall j :: 0 <= j <= carry && j < ranks.Length ==> lists[j] == []
      requires IsList(list, run) && IsRun(ByData(func), run, block) && Apart(run, home)
      requires |run| >= Pow2(carry + 1)
      modifies `minRank, `nRanks, `lists, `blocks, `home, `overflowed, ranks
      ensures Valid()
      ensures minRank == (if carry == ranks.Length then carry - 1 else carry)
      ensures nRanks == (if minRank >= old(nRanks) then minRank + 1 else old(nRanks))
      ensures lists == old(lists)[minRank := run] && blocks == old(blocks)[minRank := block]
      ensures home.Keys == old(home).Keys + Elems(run)
      ensures Contents() == old(Contents()) + block
      ensures overflowed == (old(overflowed) || carry == ranks.Length)
    {
      hide Runs, AtHome, Housed, IsList, IsRun, Apart, Pow2;
      var i := carry;
      if i == ranks.Length {
        i := i - 1;
        overflowed := true;
      }
      Pow2Monotone(i + 1, carry + 1);
      EmptyBlocks();
      Place(i, list, run, block);
    }

    method Place(i: nat, list: Node?<T>, ghost run: seq<Node<T>>, ghost block: seq<Node<T>>)
      requires Valid() && i < ranks.Length
      requires forall j :: nRanks <= j < i ==> ranks[j] == Holds(null)
      requires EmptyBelow(lists, i + 1) && EmptyBelow(blocks, i + 1)
      requires IsList(list, run) && IsRun(ByData(func), run, block) && Apart(run, home)
      requires |run| >= Pow2(i + 1)
      modifies `minRank, `nRanks, `lists, `blocks, `home, ranks
      ensures Valid()
      ensures minRank == i && nRanks == if i >= old(nRanks) then i + 1 else old(nRanks)
      ensures lists == old(lists)[i := run] && blocks == old(blocks)[i := block]
      ensures home.Keys == old(home).Keys + Elems(run)
      ensures Contents() == old(Contents()) + block
    {
      hide Runs, AtHome, Housed, IsRun, Distinct, Disjoint, Linked, Older, NodeAt, Apart, IsList, MoveIn, Pow2;
      FillSlot(ByData(func), lists, blocks, home, i, run, block);
      PutLowest(blocks, i, block);
      EmptyList<T>();
      if i >= nRanks {
        nRanks := i + 1;
      }
      minRank := i;
      ranks[i] := Holds(list);
      home := MoveIn(home, run, i);
      lists, blocks := lists[i := run], blocks[i := block];
    }

    /** The loop of `insert_list`: full slots from `start` on are merged into `list`, up to the first free one. */
    method CarryUp(start: nat, list: Node?<T>, ghost run: seq<Node<T>>, ghost block: seq<Node<T>>)
      returns (i: nat, list': Node?<T>, ghost run': seq<Node<T>>, ghost block': seq<Node<T>>)
      requires Valid() && start <= nRanks && EmptyBelow(lists, start) && EmptyBelow(blocks, start)
      requires IsList(list, run) && IsRun(ByData(func), run, block) && Apart(run, home)
      requires |run| >= Pow2(start + 1)
      modifies `lists, `blocks, `home, `calls, ranks, home.Keys`next, run`next
      ensures Valid() && start <= i <= nRanks
      ensures forall j :: start <= j < i ==> old(lists)[j] != []
      ensures i < nRanks ==> old(lists)[i] == []
      ensures lists == ClearedBelow(old(lists), i) && blocks == ClearedBelow(old(blocks), i)
      ensures home.Keys <= old(home).Keys
      ensures IsList(list', run') && Apart(run', home) && Elems(run') <= old(home).Keys + Elems(run)
      ensures |run'| == |run| + Total(old(lists), i) && |run'| >= Pow2(i + 1)
      ensures IsRun(ByData(func), run', block')
      ensures Contents() + block' == old(Contents()) + block
      ensures run' == SweepRun(ByData(func), old(lists), i, run) && block' == SweepBlock(old(blocks), i) + block
      ensures calls == old(calls) + SweepCount(ByData(func), old(lists), i, run)
    {
      hide Runs, AtHome, Housed, IsRun, Distinct, Disjoint, Linked, Merge, Older, NodeAt, Apart, EmptyBelow, IsList,
           ClearedBelow, Total, SweepCalls, MergeCalls, Pow2, SweepRun, SweepCount, SweepBlock, MergeCount;
      ghost var nodes := home.Keys + Elems(run);
      list', run', block' := list, run, block;
      i := start;
      NothingToSweep(lists, i, |run|);
      ClearNothing(lists, i);
      ClearNothing(blocks, i);
      SweepEmpty(ByData(func), lists, blocks, i, run, block);
      Occupied(i);
      while i < nRanks && ranks[i].list != null
        invariant start <= i <= nRanks
        invariant Valid()
        invariant lists == ClearedBelow(old(lists), i) && blocks == ClearedBelow(old(blocks), i)
        invariant IsList(list', run') && Apart(run', home)
        invariant home.Keys <= old(home).Keys && Elems(run') <= nodes
        invariant |run'| == |run| + Total(old(lists), i) && |run'| >= Pow2(i + 1)
        invariant IsRun(ByData(func), run', block')
        invariant Contents() + block' == old(Contents()) + block
        invariant run' == SweepRun(ByData(func), old(lists), i, run)
        invariant block' == SweepBlock(old(blocks), i) + block
        invariant calls == old(calls) + SweepCount(ByData(func), old(lists), i, run)
        invariant forall j :: start <= j < i ==> old(lists)[j] != []
        invariant i < nRanks ==> ranks[i].Holds? && (ranks[i].list != null <==> old(lists)[i] != [])
      {
        SweepNext(old(lists), i, |run|);
        SweepOne(ByData(func), old(lists), old(blocks), i, run, block);
        list', run', block' := AbsorbNext(i, list', run', block', old(lists), old(blocks), nodes);
        i := i + 1;
      }
    }

    lemma Occupied(i: nat)
      requires Valid()
      ensures i < nRanks ==> ranks[i].Holds? && (ranks[i].list != null <==> lists[i] != [])
    {
    }

    lemma LongEnough(i: nat)
      requires Valid() && i < |lists|
      ensures lists[i] != [] ==> |lists[i]| >= Pow2(i + 1)
    {
    }

    /** The slots between `nRanks` and `upto` are assigned for the first time. */
    method ClearUpTo(upto: nat)
      requires Valid() && nRanks <= upto <= ranks.Length
      modifies ranks
      ensures Valid()
      ensures forall j :: nRanks <= j < upto ==> ranks[j] == Holds(null)
    {
      hide Runs, AtHome, Housed, IsList;
      var i := nRanks;
      while i < upto
        invariant nRanks <= i <= upto && Valid()
        invariant forall j :: nRanks <= j < i ==> ranks[j] == Holds(null)
      {
        ranks[i] := Holds(null);
        i := i + 1;
      }
    }

    /** The branch of `insert_list` for a rank that is not above all the others. */
    method InsertWithin(list: Node?<T>, rank: nat, ghost run: seq<Node<T>>, ghost block: seq<Node<T>>)
      returns (i: nat, list': Node?<T>, ghost run': seq<Node<T>>, ghost block': seq<Node<T>>)
      requires Valid() && rank <= nRanks && |run| >= Pow2(rank + 1)
      requires IsList(list, run) && IsRun(ByData(func), run, block) && Apart(run, home)
      modifies `lists, `blocks, `home, `calls, ranks, home.Keys`next, run`next
      ensures Valid() && i <= nRanks && CarryStops(old(lists), nRanks, rank, i)
      ensures lists == ClearedBelow(old(lists), i) && blocks == ClearedBelow(old(blocks), i)
      ensures home.Keys <= old(home).Keys
      ensures IsList(list', run') && Apart(run', home) && Elems(run') <= old(home).Keys + Elems(run)
      ensures |run'| == |run| + Total(old(lists), i) && |run'| >= Pow2(i + 1)
      ensures IsRun(ByData(func), run', block')
      ensures Contents() + block' == old(Contents()) + block
      ensures run' == InsertRun(ByData(func), old(lists), nRanks, rank, i, run)
      ensures block' == SweepBlock(old(blocks), i) + block
      ensures calls == old(calls) + InsertCount(ByData(func), old(lists), nRanks, rank, i, run)
    {
      hide Runs, AtHome, Housed, IsRun, Distinct, Linked, Merge, Older, NodeAt, IsList, Apart, Pow2, Total,
           SweepCalls, ClearedBelow, SweepRun, SweepCount, SweepBlock, MergeCount, InsertRun, InsertCount, InsertCalls;
      list', run', block' := list, run, block;
      StartCarry(old(lists), 0);
      StartCarry(old(blocks), 0);
      StartCarry(old(lists), rank);
      StartCarry(old(blocks), rank);
      if rank != 0 {
        list', run', block' := SweepInto(list, rank, run, block);
      }
      assert forall k :: 0 <= k < |run'| ==> run'[k] in Elems(run');
      i, list', run', block' := CarryUp(rank, list', run', block');
      EndCarry(old(lists), rank, i);
      ClearTwice(old(blocks), rank, i);
      InsertFromRank(ByData(func), old(lists), old(blocks), nRanks, rank, i, run, block);
    }

    /** The branch for a rank above all the others; `rank` is the given one, `rank0`, or the length of the array. */
    method InsertAbove(list: Node?<T>, rank: nat, ghost rank0: nat, ghost run: seq<Node<T>>, ghost block: seq<Node<T>>)
      returns (list': Node?<T>, ghost run': seq<Node<T>>, ghost block': seq<Node<T>>)
      requires Valid() && nRanks < rank0 && nRanks <= rank <= ranks.Length && rank <= rank0 && |run| >= Pow2(rank0 + 1)
      requires IsList(list, run) && IsRun(ByData(func), run, block) && Apart(run, home)
      modifies `lists, `blocks, `home, `calls, ranks, home.Keys`next, run`next
      ensures Valid() && forall j :: nRanks <= j < rank ==> ranks[j] == Holds(null)
      ensures lists == ClearedBelow(old(lists), rank) && blocks == ClearedBelow(old(blocks), rank)
      ensures home.Keys <= old(home).Keys
      ensures IsList(list', run') && Apart(run', home) && Elems(run') <= old(home).Keys + Elems(run)
      ensures |run'| == |run| + Total(old(lists), rank) && |run'| >= Pow2(rank + 1)
      ensures IsRun(ByData(func), run', block')
      ensures Contents() + block' == old(Contents()) + block
      ensures run' == InsertRun(ByData(func), old(lists), nRanks, rank0, rank, run)
      ensures block' == SweepBlock(old(blocks), rank) + block
      ensures calls == old(calls) + InsertCount(ByData(func), old(lists), nRanks, rank0, rank, run)
    {
      hide Runs, AtHome, Housed, IsRun, Distinct, Linked, Merge, Older, NodeAt, IsList, Apart, Pow2, Total,
           SweepCalls, ClearedBelow, SweepRun, SweepCount, SweepBlock, MergeCount, InsertRun, InsertCount, InsertCalls;
      EmptyBlocks();
      list', run', block' := SweepInto(list, nRanks, run, block);
      ClearUpTo(rank);
      TotalAboveIsConstant(old(lists), nRanks, rank);
      ClearPastEnd(old(lists), nRanks, rank);
      ClearPastEnd(old(blocks), nRanks, rank);
      Pow2Monotone(rank + 1, rank0 + 1);
      InsertAboveAll(ByData(func), old(lists), old(blocks), nRanks, rank0, rank, run);
    }

    /**
      `insert_list`, for a list of any rank. The comparisons of the merges are at most those of `InsertCalls`, and over
      any sequence of insertions they stay `Paid`.
     */
    method InsertList(list0: Node?<T>, rank0: nat, ghost run: seq<Node<T>>, ghost block: seq<Node<T>>)
      returns (ghost carry: nat, ghost run': seq<Node<T>>)
      requires Valid() && |run| >= Pow2(rank0 + 1)
      requires IsList(list0, run) && IsRun(ByData(func), run, block) && Apart(run, home)
      modifies `minRank, `nRanks, `lists, `blocks, `home, `calls, `overflowed, ranks, home.Keys`next, run`next
      ensures Valid()
      ensures Contents() == old(Contents()) + block
      ensures home.Keys <= old(home).Keys + Elems(run)
      ensures carry <= ranks.Length && CarryStops(old(lists), old(nRanks), rank0, carry)
      ensures minRank == (if carry == ranks.Length then carry - 1 else carry)
      ensures nRanks == (if minRank >= old(nRanks) then minRank + 1 else old(nRanks))
      ensures lists == ClearedBelow(old(lists), carry)[minRank := run']
      ensures |run'| == |run| + Total(old(lists), carry)
      ensures overflowed == (old(overflowed) || carry == ranks.Length)
      ensures run' == InsertRun(ByData(func), old(lists), old(nRanks), rank0, carry, run)
      ensures blocks == ClearedBelow(old(blocks), carry)[minRank := SweepBlock(old(blocks), carry) + block]
      ensures calls == old(calls) + InsertCount(ByData(func), old(lists), old(nRanks), rank0, carry, run)
      ensures old(Paid(lists, nRanks, calls, overflowed)) ==> Paid(lists, nRanks, calls, overflowed)
    {
      hide Runs, AtHome, Housed, IsRun, Distinct, Linked, Merge, Older, NodeAt, IsList, Apart, Pow2, Total,
           SweepCalls, ClearedBelow, SweepRun, SweepCount, SweepBlock, MergeCount, InsertRun, InsertCount, InsertCalls;
      var list, rank, i := list0, rank0, 0;
      ghost var block';
      EmptyBlocks();
      if rank > nRanks {
        if rank > ranks.Length {
          rank := ranks.Length;
        }
        list, run', block' := InsertAbove(list, rank, rank0, run, block);
        i := rank;
      } else {
        i, list, run', block' := InsertWithin(list, rank, run, block);
      }
      carry := i;
      FreeUpTo(old(lists), carry);
      Store(i, list, run', block');
      InsertBounds(ByData(func), old(lists), old(nRanks), rank0, carry, run);
      PaidUp(old(lists), old(nRanks), old(calls), old(overflowed), rank0, carry, |run|, run');
    }

    /** The comparisons of an insertion of any rank are paid for if those before it are. */
    lemma PaidUp(lists0: seq<seq<Node<T>>>, n: nat, calls0: nat, overflowed0: bool, rank: nat, carry: nat, len: nat,
                 run: seq<Node<T>>)
      requires n <= |lists0| && 1 <= nRanks <= |lists0| == |lists| == ranks.Length
      requires CarryStops(lists0, n, rank, carry) && forall j :: n <= j < |lists0| ==> lists0[j] == []
      requires minRank == (if carry == ranks.Length then carry - 1 else carry)
      requires nRanks == (if minRank >= n then minRank + 1 else n)
      requires lists == ClearedBelow(lists0, carry)[minRank := run]
      requires |run| == len + Total(lists0, carry) && |run| >= Pow2(carry + 1)
      requires overflowed == (overflowed0 || carry == ranks.Length)
      requires calls <= calls0 + InsertCalls(lists0, n, rank, carry, len)
      ensures Paid(lists0, n, calls0, overflowed0) ==> Paid(lists, nRanks, calls, overflowed)
    {
      if Paid(lists0, n, calls0, overflowed0) {
        PaidStep(lists0, n, calls0, overflowed0, rank, carry, len, run, lists, nRanks, calls, overflowed);
      }
    }

    lemma EmptyBlocks()
      requires Valid()
      ensures forall j :: 0 <= j < |lists| && lists[j] == [] ==> blocks[j] == []
      ensures forall j :: nRanks <= j < |lists| ==> lists[j] == []
    {
      forall j | 0 <= j < |lists| && lists[j] == [] ensures blocks[j] == [] {
        assert |multiset(blocks[j])| == |multiset(lists[j])|;
      }
    }

    lemma SlotCounts()
      requires Valid()
      ensures 1 <= ranks.Length == |lists| == |blocks| && nRanks <= |lists|
      ensures forall j :: nRanks <= j < |lists| ==> lists[j] == []
    {
    }

    /** The two assignments of the step: the merge, which leaves the other slots alone, and the clearing. */
    method MergeSlot(i: nat, list: Node?<T>, ghost run: seq<Node<T>>)
      returns (list': Node?<T>, ghost n: nat)
      requires Valid() && i < nRanks
      requires IsList(list, run) && Apart(run, home)
      modifies ranks, lists[i]`next, run`next
      ensures IsList(list', Merge(ByData(func), lists[i], run))
      ensures n == MergeCount(ByData(func), lists[i], run)
      ensures ranks[i] == Holds(null)
      ensures forall j :: 0 <= j < nRanks && j != i ==> ranks[j].Holds? && IsList(ranks[j].list, lists[j])
    {
      assert Disjoint(lists[i], run);
      list', n := MergeLists(ranks[i].list, list, func, lists[i], run);
      ranks[i] := Holds(null);
      forall j | 0 <= j < nRanks && j != i ensures IsList(ranks[j].list, lists[j]) {
        ghost var s := lists[j];
        assert old(IsList(ranks[j].list, s));
        forall k | 0 <= k < |s| ensures s[k].next == NodeAt(s, k + 1) {
          assert s[k] in s && s[k] !in lists[i] && s[k] !in run;
        }
      }
    }
  }

  // ----- do_sort

  /**
    Where the driver stands after `k` pairs: the array is a counter showing `k`, it holds parts of the recursion of a
    mergesort, and the comparisons made so far are exactly those of these parts.
   */
  ghost predicate Driven<E>(c: (E, E) -> int, lists: seq<seq<E>>, blocks: seq<seq<E>>, n: nat, calls: nat,
                            overflowed: bool, k: nat) {
    && Counter(lists, n, calls, overflowed, k)
    && Tree(c, lists, blocks)
    && calls == TreeCount(c, blocks, |blocks|)
  }

  lemma DrivenStart<E>(c: (E, E) -> int, lists: seq<seq<E>>, blocks: seq<seq<E>>)
    requires |lists| == |blocks| && EmptyBelow(lists, |lists|) && EmptyBelow(blocks, |lists|)
    ensures Driven(c, lists, blocks, 0, 0, false, 0)
  {
    CounterStart(lists);
    TreeStart(c, lists, blocks);
  }

  lemma DrivenStep<E>(c: (E, E) -> int, lists: seq<seq<E>>, blocks: seq<seq<E>>, n: nat, calls: nat, overflowed: bool,
                      k: nat, carry: nat, run: seq<E>, block: seq<E>, lists': seq<seq<E>>, blocks': seq<seq<E>>,
                      n': nat, overflowed': bool)
    requires |lists| == |blocks| >= 1 && n <= |lists| && carry <= |lists|
    requires Driven(c, lists, blocks, n, calls, overflowed, k) && CarryStops(lists, n, 0, carry)
    requires forall j :: n <= j < |lists| ==> lists[j] == []
    requires |block| == 2 && run == TopDown(c, |lists|, block) && TopDownCount(c, |lists|, block) == 1
    requires var at := if carry == |lists| then carry - 1 else carry;
      && lists' == ClearedBelow(lists, carry)[at := SweepRun(c, lists, carry, run)]
      && blocks' == ClearedBelow(blocks, carry)[at := SweepBlock(blocks, carry) + block]
      && n' == if at >= n then at + 1 else n
    requires overflowed' == (overflowed || carry == |lists|)
    ensures Driven(c, lists', blocks', n', calls + 1 + SweepCount(c, lists, carry, run), overflowed', k + 1)
    ensures !overflowed' ==> LowestBit(k + 1, carry)
  {
    hide Counter, Tree, TreeCount, ClearedBelow, SweepRun, SweepCount, SweepBlock, TopDown, TopDownCount, CarryStops,
         LowestBit, Total, SweepCalls;
    TreeStep(c, lists, blocks, n, carry, run, block);
    TopDownLength(c, |lists|, block);
    SweepBounds(c, lists, carry, run);
    CounterStep(lists, n, calls, overflowed, k, carry, SweepRun(c, lists, carry, run),
                lists', n', calls + 1 + SweepCount(c, lists, carry, run), overflowed');
  }

  lemma DrivenEnd<E>(c: (E, E) -> int, lists: seq<seq<E>>, blocks: seq<seq<E>>, n: nat, calls: nat, overflowed: bool,
                     k: nat, rest: seq<E>)
    requires |lists| == |blocks| && n <= |lists| && forall j :: n <= j < |lists| ==> lists[j] == []
    requires Driven(c, lists, blocks, n, calls, overflowed, k) && Total(lists, n) == 2 * k && |rest| <= 1
    ensures var all, calls' := SweepBlock(blocks, n) + rest, calls + SweepCount(c, lists, n, rest);
      && SweepRun(c, lists, n, rest) == TopDown(c, |lists|, all) && calls' == TopDownCount(c, |lists|, all)
      && (overflowed <==> 2 * k + |rest| >= Pow2(|lists| + 1))
      && (!overflowed && 2 * k + |rest| >= 1 ==> calls' <= (2 * k + |rest|) * FloorLog2(2 * k + |rest|))
  {
    hide Counter, Tree, TreeCount, SweepRun, SweepCount, SweepBlock, TopDown, TopDownCount, Total, SweepCalls,
         FloorLog2, Pow2;
    TreeEnd(c, lists, blocks, n, rest);
    SweepBounds(c, lists, n, rest);
    CounterTotals(lists, n, calls, overflowed, k, |rest|, calls + SweepCount(c, lists, n, rest));
  }

  /** Two elements, as the recursion of the sort treats them. */
  lemma PairTree<E>(c: (E, E) -> int, maxRanks: nat, x: E, y: E)
    requires maxRanks >= 1
    ensures TopDown(c, maxRanks, [x, y]) == if c(x, y) > 0 then [y, x] else [x, y]
    ensures TopDownCount(c, maxRanks, [x, y]) == 1
  {
    var p := Split(2, maxRanks);
    assert p == 1;
    TopDownSplits(c, maxRanks, [x, y]);
    assert [x, y][..p] == [x] && [x, y][p..] == [y];
    assert TopDown(c, maxRanks, [x]) == [x] && TopDown(c, maxRanks, [y]) == [y];
    assert TopDownCount(c, maxRanks, [x]) == TopDownCount(c, maxRanks, [y]) == 0;
    assert [x][1..] == [] && [y][1..] == [];
    assert Merge(c, [x], []) == [x] && Merge(c, [], [y]) == [y];
    assert MergeCount(c, [x], []) == MergeCount(c, [], [y]) == 0;
  }

  /**
    The body of the driver's loop up to the insertion: the first two nodes are cut off and put in order. If they are
    out of order they point at each other until the last assignment.
   */
  method TakePair<T>(list0: Node<T>, func: (T, T) -> int, ghost nodes: seq<Node<T>>, ghost maxRanks: nat)
    returns (list: Node<T>, tail: Node?<T>, ghost run: seq<Node<T>>)
    requires IsList(list0, nodes) && |nodes| >= 2 && maxRanks >= 1
    modifies {nodes[0], nodes[1]}`next
    ensures IsList(list, run) && IsRun(ByData(func), run, nodes[..2])
    ensures run == if func(nodes[0].data, nodes[1].data) > 0 then [nodes[1], nodes[0]] else [nodes[0], nodes[1]]
    ensures |run| == 2 && Elems(run) == {nodes[0], nodes[1]}
    ensures run == TopDown(ByData(func), maxRanks, nodes[..2])
    ensures TopDownCount(ByData(func), maxRanks, nodes[..2]) == 1
    ensures IsList(tail, nodes[2..])
  {
    hide IsRun, TopDown, TopDownCount;
    PairTree(ByData(func), maxRanks, nodes[0], nodes[1]);
    list := list0;
    var next := list.next;
    tail := next.next;
    PairRun<Node<T>>(ByData(func), nodes[0], nodes[1]);
    assert nodes[..2] == [nodes[0], nodes[1]];
    if func(list.data, next.data) > 0 {
      next.next := list;
      next := list;
      list := list.next;
      run := [nodes[1], nodes[0]];
    } else {
      run := [nodes[0], nodes[1]];
    }
    next.next := null;
  }

  lemma SplitPair<E>(nodes: seq<E>, i: nat, home: map<E, nat>)
    requires Distinct(nodes) && i + 2 <= |nodes| && home.Keys <= Elems(nodes[..i])
    ensures nodes[i..][2..] == nodes[i + 2..] && nodes[..i] + nodes[i..][..2] == nodes[..i + 2]
    ensures Elems(nodes[..i + 2]) == Elems(nodes[..i]) + {nodes[i], nodes[i + 1]}
    ensures Apart(nodes[i..], home)
    ensures nodes[i] !in nodes[i + 2..] && nodes[i + 1] !in nodes[i + 2..]
  {
    assert nodes[..i + 2] == nodes[..i] + [nodes[i], nodes[i + 1]];
    forall n | n in nodes[i..] ensures n !in home {
      assert n !in nodes[..i];
      assert n !in Elems(nodes[..i]);
    }
  }

  lemma PairApart<E>(nodes: seq<E>, i: nat, home: map<E, nat>, run: seq<E>)
    requires i + 2 <= |nodes| && Elems(run) == {nodes[i], nodes[i + 1]}
    requires home.Keys <= Elems(nodes[..i]) && Apart(nodes[i..], home)
    requires nodes[i] !in nodes[i + 2..] && nodes[i + 1] !in nodes[i + 2..]
    ensures Apart(run, home)
    ensures forall n :: n in home ==> n in nodes
    ensures forall j :: 0 <= j < |run| ==> run[j] in nodes
    ensures Apart(nodes[i + 2..], home) && Disjoint(nodes[i + 2..], run)
  {
    forall n | n in run ensures n !in home && n in nodes && n !in nodes[i + 2..] {
      assert n in Elems(run);
      assert nodes[i] == nodes[i..][0] && nodes[i + 1] == nodes[i..][1];
    }
    forall n | n in home ensures n in nodes {
      assert n in Elems(nodes[..i]);
    }
    forall n | n in nodes[i + 2..] ensures n !in home {
      assert nodes[i..][2..] == nodes[i + 2..];
    }
  }

  /** `insert_list (si, list, 0)`, seen as one step of the counter; `others` are the nodes still to be sorted. */
  method InsertPair<T>(si: SortInfo<T>, list: Node<T>, ghost run: seq<Node<T>>, ghost block: seq<Node<T>>,
                       ghost k: nat, ghost tail: Node?<T>, ghost others: seq<Node<T>>)
    requires si.Valid()
    requires Driven(ByData(si.func), si.lists, si.blocks, si.nRanks, k + si.calls, si.overflowed, k)
    requires IsList(list, run) && IsRun(ByData(si.func), run, block) && Apart(run, si.home) && |run| == |block| == 2
    requires run == TopDown(ByData(si.func), |si.lists|, block)
    requires TopDownCount(ByData(si.func), |si.lists|, block) == 1
    requires IsList(tail, others) && Apart(others, si.home) && Disjoint(others, run)
    modifies si, si.ranks, si.home.Keys`next, run`next
    ensures si.Valid()
    ensures Driven(ByData(si.func), si.lists, si.blocks, si.nRanks, k + 1 + si.calls, si.overflowed, k + 1)
    ensures !si.overflowed ==> LowestBit(k + 1, si.minRank)
    ensures si.Contents() == old(si.Contents()) + block && IsList(tail, others)
    ensures si.home.Keys <= old(si.home).Keys + Elems(run)
  {
    hide IsRun, Older, Driven, LowestBit, CarryStops, Runs, AtHome, Housed, ClearedBelow, Total, SweepCalls, Distinct,
         IsList, TopDown, TopDownCount, SweepRun, SweepBlock, SweepCount, InsertRun, InsertCount, Paid;
    ghost var c := ByData(si.func);
    ghost var lists, blocks, n, calls, overflowed := si.lists, si.blocks, si.nRanks, k + si.calls, si.overflowed;
    si.EmptyBlocks();
    assert Pow2(1) == 2;
    assert forall j :: 0 <= j < |others| ==> others[j] in others && others[j] !in si.home && others[j] !in run;
    ghost var carry, run' := si.InsertList(list, 0, run, block);
    InsertRank0(c, lists, n, carry, run);
    DrivenStep(c, lists, blocks, n, calls, overflowed, k, carry, run, block,
               si.lists, si.blocks, si.nRanks, si.overflowed);
  }

  lemma LeftOver<E>(nodes: seq<E>, i: nat, home: map<E, nat>)
    requires Distinct(nodes) && i <= |nodes| && home.Keys <= Elems(nodes[..i])
    ensures Apart(nodes[i..], home) && forall n :: n in home ==> n in nodes
    ensures forall j :: 0 <= j < |nodes[i..]| ==> nodes[i..][j] in nodes
  {
    forall n | n in nodes[i..] ensures n !in home {
      assert n !in nodes[..i];
      assert n !in Elems(nodes[..i]);
    }
    forall n | n in home ensures n in nodes {
      assert n in Elems(nodes[..i]);
    }
  }

  /** One iteration of the driver's loop; `k` pairs have been inserted before it. */
  method SortStep<T>(si: SortInfo<T>, list0: Node<T>, ghost nodes: seq<Node<T>>, ghost k: nat)
    returns (tail: Node?<T>)
    requires si.Valid()
    requires Driven(ByData(si.func), si.lists, si.blocks, si.nRanks, k + si.calls, si.overflowed, k)
    requires 2 * k + 2 <= |nodes| && si.Contents() == nodes[..2 * k] && IsList(list0, nodes[2 * k..])
    requires Distinct(nodes) && si.home.Keys <= Elems(nodes[..2 * k])
    modifies si, si.ranks, nodes`next
    ensures si.Valid()
    ensures Driven(ByData(si.func), si.lists, si.blocks, si.nRanks, k + 1 + si.calls, si.overflowed, k + 1)
    ensures !si.overflowed ==> LowestBit(k + 1, si.minRank)
    ensures si.Contents() == nodes[..2 * k + 2] && IsList(tail, nodes[2 * k + 2..])
    ensures si.home.Keys <= Elems(nodes[..2 * k + 2])
  {
    hide IsRun, Older, Driven, LowestBit, Runs, AtHome, Housed, Distinct, IsList, TopDown, TopDownCount;
    ghost var rest, run := nodes[2 * k..], [];
    var list;
    SplitPair(nodes, 2 * k, si.home);
    assert rest[0] == nodes[2 * k] && rest[1] == nodes[2 * k + 1];
    si.SlotCounts();
    list, tail, run := TakePair(list0, si.func, rest, |si.lists|);
    PairApart(nodes, 2 * k, si.home, run);
    InsertPair(si, list, run, rest[..2], k, tail, nodes[2 * k + 2..]);
  }

  method DoSort<T>(list0: Node?<T>, func: (T, T) -> int, maxRanks: nat, ghost nodes: seq<Node<T>>)
    returns (sorted: Node?<T>, ghost out: seq<Node<T>>, ghost calls: nat, ghost overflowed: bool)
    requires maxRanks >= 1 && IsList(list0, nodes)
    modifies nodes`next
    ensures IsList(sorted, out) && multiset(out) == multiset(nodes)
    ensures TotalPreorder(ByData(func), Elems(nodes)) ==> out == Sort(ByData(func), nodes)
    ensures overflowed <==> |nodes| >= Pow2(maxRanks + 1)
    ensures out == TopDown(ByData(func), maxRanks, nodes) && calls == TopDownCount(ByData(func), maxRanks, nodes)
    ensures !overflowed && |nodes| >= 1 ==> calls <= |nodes| * FloorLog2(|nodes|)
  {
    hide *;
    var si := new SortInfo<T>(func, maxRanks);
    var list := list0;
    ghost var k := 0;
    ListDistinct(list, nodes);
    assert nodes[0..] == nodes && nodes[..0] == [];
    assert EmptyBelow(si.blocks, maxRanks) by { si.EmptyBlocks(); AllEmpty(si.lists, si.blocks); }
    DrivenStart(ByData(func), si.lists, si.blocks);
    while list != null && list.next != null
      invariant fresh(si) && fresh(si.ranks) && si.func == func && si.ranks.Length == maxRanks
      invariant si.Valid()
      invariant Driven(ByData(func), si.lists, si.blocks, si.nRanks, k + si.calls, si.overflowed, k)
      invariant 2 * k <= |nodes| && si.Contents() == nodes[..2 * k] && IsList(list, nodes[2 * k..])
      invariant si.home.Keys <= Elems(nodes[..2 * k])
      decreases |nodes| - 2 * k
    {
      NodesLeft(list, nodes[2 * k..]);
      list := SortStep(si, list, nodes, k);
      k := k + 1;
    }
    NodesLeft(list, nodes[2 * k..]);
    sorted, out, calls, overflowed := Finish(si, list, nodes, k);
    RunMeans(ByData(func), out, nodes);
  }

  /** The test of the driver's loop. */
  lemma NodesLeft<T>(list: Node?<T>, nodes: seq<Node<T>>)
    requires IsList(list, nodes)
    ensures list != null && list.next != null <==> |nodes| >= 2
  {
  }

  lemma AllEmpty<E>(lists: seq<seq<E>>, blocks: seq<seq<E>>)
    requires |lists| == |blocks| && EmptyBelow(lists, |lists|)
    requires forall j :: 0 <= j < |lists| && lists[j] == [] ==> blocks[j] == []
    ensures EmptyBelow(blocks, |blocks|)
  {
  }

  /** `return sweep_up (&si, list, si.n_ranks);` with at most one node left over. */
  method Finish<T>(si: SortInfo<T>, list: Node?<T>, ghost nodes: seq<Node<T>>, ghost k: nat)
    returns (sorted: Node?<T>, ghost out: seq<Node<T>>, ghost calls: nat, ghost overflowed: bool)
    requires si.Valid()
    requires Driven(ByData(si.func), si.lists, si.blocks, si.nRanks, k + si.calls, si.overflowed, k)
    requires 2 * k <= |nodes| <= 2 * k + 1 && si.Contents() == nodes[..2 * k] && IsList(list, nodes[2 * k..])
    requires Distinct(nodes) && si.home.Keys <= Elems(nodes[..2 * k])
    modifies si, si.ranks, nodes`next
    ensures IsList(sorted, out) && IsRun(ByData(si.func), out, nodes)
    ensures overflowed <==> |nodes| >= Pow2(si.ranks.Length + 1)
    ensures out == TopDown(ByData(si.func), si.ranks.Length, nodes)
    ensures calls == TopDownCount(ByData(si.func), si.ranks.Length, nodes)
    ensures !overflowed && |nodes| >= 1 ==> calls <= |nodes| * FloorLog2(|nodes|)
  {
    hide *;
    ghost var c, lists, blocks, n := ByData(si.func), si.lists, si.blocks, si.nRanks;
    ghost var callsBefore, overflowedBefore, rest := k + si.calls, si.overflowed, nodes[2 * k..];
    si.SlotCounts();
    sorted, out := FinalSweep(si, list, nodes, k);
    calls, overflowed := k + si.calls, si.overflowed;
    DrivenEnd(c, lists, blocks, n, callsBefore, overflowedBefore, k, rest);
  }

  /** The sweep itself: the slots and what is left over, in input order, make up the whole input. */
  method FinalSweep<T>(si: SortInfo<T>, list: Node?<T>, ghost nodes: seq<Node<T>>, ghost k: nat)
    returns (sorted: Node?<T>, ghost out: seq<Node<T>>)
    requires si.Valid() && 2 * k <= |nodes| <= 2 * k + 1
    requires si.Contents() == nodes[..2 * k] && IsList(list, nodes[2 * k..])
    requires Distinct(nodes) && si.home.Keys <= Elems(nodes[..2 * k])
    requires si.nRanks <= |si.lists| == |si.blocks|
    modifies si, si.ranks, nodes`next
    ensures IsList(sorted, out) && IsRun(ByData(si.func), out, nodes)
    ensures Total(old(si.lists), old(si.nRanks)) == 2 * k
    ensures nodes == SweepBlock(old(si.blocks), old(si.nRanks)) + nodes[2 * k..]
    ensures out == SweepRun(ByData(si.func), old(si.lists), old(si.nRanks), nodes[2 * k..])
    ensures si.calls == old(si.calls) + SweepCount(ByData(si.func), old(si.lists), old(si.nRanks), nodes[2 * k..])
    ensures si.overflowed == old(si.overflowed)
  {
    hide IsRun, Older, Runs, AtHome, Housed, Distinct, IsList, ClearedBelow, Total, SweepRun, SweepCount, SweepBlock;
    ghost var rest, block := nodes[2 * k..], [];
    ghost var blocks := si.blocks;
    LeftOver(nodes, 2 * k, si.home);
    SmallRun(ByData(si.func), rest);
    si.EmptyBlocks();
    sorted, out, block := si.SweepUp(list, si.nRanks, rest, rest);
    AllCleared(blocks, si.nRanks);
    assert block == [] + block == nodes[..2 * k] + rest == nodes;
    RunLength(ByData(si.func), out, nodes);
  }
}
