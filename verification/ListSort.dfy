/**
  The non-recursive mergesort of singly linked lists (headers/mono/eglib/sort.frag.h), relinking nodes in place.

  Every chain is described by the ghost sequence of its nodes. Input blocks are sequences of nodes too, so that
  "the stable sort of this block" speaks of node identities and not only of the values they carry.
 */
module ListSort {
  import opened StableMerge

  class Node<T> {
    const data: T  // the sort reads payloads and never assigns them
    var next: Node?<T>

    constructor (data: T, next: Node?<T>)
      ensures this.data == data && this.next == next
    {
      this.data := data;
      this.next := next;
    }
  }

  ghost function NodeAt<T>(s: seq<Node<T>>, i: nat): Node?<T> {
    if i < |s| then s[i] else null
  }

  ghost predicate Linked<T>(s: seq<Node<T>>, k: int)
    requires k <= |s|
    reads s`next
  {
    forall i {:trigger s[i].next} :: 0 <= i < k ==> s[i].next == NodeAt(s, i + 1)
  }

  /** `head` starts a NULL-terminated chain made of exactly the nodes of `s`, in that order. */
  ghost predicate IsList<T>(head: Node?<T>, s: seq<Node<T>>)
    reads s`next
  {
    && head == NodeAt(s, 0)
    && Distinct(s)
    && Linked(s, |s|)
  }

  lemma EmptyList<T>()
    ensures IsList<T>(null, [])
  {
  }

  lemma ListDistinct<T>(head: Node?<T>, s: seq<Node<T>>)
    requires IsList(head, s)
    ensures Distinct(s)
  {
  }

  /** The comparison of two nodes: the caller's function applied to their payloads. */
  ghost function ByData<T>(func: (T, T) -> int): (Node<T>, Node<T>) -> int {
    (x: Node<T>, y: Node<T>) => func(x.data, y.data)
  }

  // ----- merge_lists

  /** What is left to merge, `fs` and `ss`, is found in `merged` from position `t` on, and not before. */
  lemma MergeRest<T>(c: (Node<T>, Node<T>) -> int, merged: seq<Node<T>>, t: nat, fs: seq<Node<T>>, ss: seq<Node<T>>)
    requires t <= |merged| && Distinct(merged) && merged[t..] == Merge(c, fs, ss)
    requires Distinct(fs) && Distinct(ss) && Disjoint(fs, ss)
    ensures t > 0 ==> merged[t - 1] !in fs && merged[t - 1] !in ss
    ensures |merged| == t + |fs| + |ss|
    ensures fs != [] && ss != [] ==>
      var x := if c(fs[0], ss[0]) > 0 then ss[0] else fs[0];
      merged[t] == x && merged[t + 1..] == merged[t..][1..]
  {
    MergePermutes(c, fs, ss);
    MergeDistinct(c, fs, ss);
    if t > 0 {
      assert merged[t - 1] !in merged[t..];
    }
    if fs != [] && ss != [] {
      assert merged[t] == merged[t..][0];
    }
  }

  lemma MergeMember<T>(c: (Node<T>, Node<T>) -> int, xs: seq<Node<T>>, ys: seq<Node<T>>, n: Node<T>)
    requires Distinct(xs) && Distinct(ys) && Disjoint(xs, ys)
    requires n in Merge(c, xs, ys)
    ensures n in xs || n in ys
  {
    MergeDistinct(c, xs, ys);
  }

  lemma TailOfList<T>(head: Node<T>, s: seq<Node<T>>)
    requires IsList(head, s)
    ensures s != [] && head == s[0] && IsList(head.next, s[1..])
    ensures Elems(s[1..]) <= Elems(s)
  {
  }

  /**
    The assignment `*pos = target` while `s` is being chained: a null `pos` addresses the variable holding the head,
    and a node its `next` field. The first `t` nodes are chained already, but for the link out of the last of them.
   */
  method SetLink<T>(head: Node?<T>, pos: Node?<T>, target: Node?<T>, ghost s: seq<Node<T>>, ghost t: nat)
    returns (head': Node?<T>)
    requires t <= |s| && Distinct(s) && Linked(s, t - 1) && target == NodeAt(s, t)
    requires if t == 0 then pos == null else pos == s[t - 1] && head == s[0]
    modifies (if pos == null then {} else {pos})`next
    ensures Linked(s, t) && head' == NodeAt(s, 0)
  {
    head' := head;
    if pos == null {
      head' := target;
    } else {
      pos.next := target;
      forall i | 0 <= i < t ensures s[i].next == NodeAt(s, i + 1) {
        if i < t - 1 { assert s[i] != s[t - 1]; }
      }
    }
  }

  /** The last link: the chain of the first `t` nodes continues with what is left of one of the lists. */
  method AttachRest<T>(head: Node?<T>, pos: Node?<T>, rest: Node?<T>, ghost s: seq<Node<T>>, ghost t: nat)
    returns (head': Node?<T>)
    requires t <= |s| && Distinct(s) && Linked(s, t - 1)
    requires if t == 0 then pos == null else pos == s[t - 1] && head == s[0]
    requires IsList(rest, s[t..])
    modifies (if pos == null then {} else {pos})`next
    ensures IsList(head', s)
  {
    assert rest == NodeAt(s, t);
    assert t > 0 ==> s[t - 1] !in s[t..];
    head' := SetLink(head, pos, rest, s, t);
    assert IsList(rest, s[t..]);
    forall i | 0 <= i < |s| ensures s[i].next == NodeAt(s, i + 1) {
      if i >= t { assert s[t..][i - t] == s[i]; }
    }
  }

  /** Moves the first node of one list to the end of the chain being built; `other` is the list left alone. */
  method MoveHead<T>(head: Node?<T>, pos: Node?<T>, from: Node<T>, ghost s: seq<Node<T>>, ghost t: nat,
                     ghost froms: seq<Node<T>>, ghost other: Node?<T>, ghost others: seq<Node<T>>)
    returns (head': Node?<T>, from': Node?<T>)
    requires t < |s| && Distinct(s) && Linked(s, t - 1) && from == s[t]
    requires if t == 0 then pos == null else pos == s[t - 1] && head == s[0]
    requires IsList(from, froms) && IsList(other, others)
    requires pos != null ==> pos !in froms && pos !in others
    modifies (if pos == null then {} else {pos})`next
    ensures Linked(s, t) && head' == s[0]
    ensures IsList(from', froms[1..]) && IsList(other, others)
  {
    head' := SetLink(head, pos, from, s, t);
    from' := from.next;
    TailOfList(from, froms);
  }

  method MergeLists<T>(list1: Node?<T>, list2: Node?<T>, func: (T, T) -> int,
                       ghost xs: seq<Node<T>>, ghost ys: seq<Node<T>>)
    returns (list: Node?<T>, ghost calls: nat)
    requires IsList(list1, xs) && IsList(list2, ys) && Disjoint(xs, ys)
    modifies xs`next, ys`next
    ensures IsList(list, Merge(ByData(func), xs, ys))
    ensures calls == MergeCount(ByData(func), xs, ys)
  {
    ghost var c := ByData(func);
    ghost var merged := Merge(c, xs, ys);
    MergeDistinct(c, xs, ys);

    var first, second := list1, list2;
    ghost var fs, ss := xs, ys;  // what is left of the two lists
    list, calls := null, 0;
    var pos: Node?<T> := null;
    MergeRest(c, merged, 0, fs, ss);
    while first != null && second != null
      invariant IsList(first, fs) && IsList(second, ss) && Disjoint(fs, ss)
      invariant |fs| <= |xs| && |ss| <= |ys|
      invariant calls <= |merged| && merged[calls..] == Merge(c, fs, ss)
      invariant calls + MergeCount(c, fs, ss) == MergeCount(c, xs, ys)
      invariant if calls == 0 then pos == null else list == merged[0] && pos == merged[calls - 1]
      invariant Linked(merged, calls - 1)
      decreases |fs| + |ss|
    {
      MergeRest(c, merged, calls, fs, ss);
      if calls > 0 { MergeMember(c, xs, ys, merged[calls - 1]); }
      if func(first.data, second.data) > 0 {
        var node := second;
        list, second := MoveHead(list, pos, node, merged, calls, ss, first, fs);
        pos := node;
        ss := ss[1..];
      } else {
        var node := first;
        list, first := MoveHead(list, pos, node, merged, calls, fs, second, ss);
        pos := node;
        fs := fs[1..];
      }
      calls := calls + 1;
    }
    MergeRest(c, merged, calls, fs, ss);
    if calls > 0 { MergeMember(c, xs, ys, merged[calls - 1]); }
    var rest := if first != null then first else second;
    assert merged[calls..] == if first != null then fs else ss;
    list := AttachRest(list, pos, rest, merged, calls);
  }
}
