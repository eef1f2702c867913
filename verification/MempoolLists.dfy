/**
  The linked-list insertions of headers/mono/metadata/mempool-internals.h. Nodes come from a memory pool, which never
  fails and never frees; lists are described by the ghost sequence of their nodes.
 */
module MempoolLists {

  // ----- Singly linked lists

  class SNode<T> {
    var data: T
    var next: SNode?<T>

    constructor (data: T, next: SNode?<T>)
      ensures this.data == data && this.next == next
    {
      this.data, this.next := data, next;
    }
  }

  ghost function SNodeAt<T>(s: seq<SNode<T>>, i: int): SNode?<T> {
    if 0 <= i < |s| then s[i] else null
  }

  ghost predicate IsSList<T>(head: SNode?<T>, s: seq<SNode<T>>)
    reads s
  {
    && head == SNodeAt(s, 0)
    && (forall i, j :: 0 <= i < j < |s| ==> s[i] != s[j])
    && forall i {:trigger s[i].next} :: 0 <= i < |s| ==> s[i].next == SNodeAt(s, i + 1)
  }

  /** `g_slist_prepend_mempool` */
  method SListPrepend<T>(list: SNode?<T>, data: T, ghost s: seq<SNode<T>>) returns (newList: SNode<T>)
    requires IsSList(list, s)
    ensures fresh(newList) && newList.data == data
    ensures IsSList(newList, [newList] + s)
  {
    newList := new SNode(data, list);
    assert forall i :: 0 < i < |[newList] + s| ==> ([newList] + s)[i] == s[i - 1];
  }

  /** `g_slist_append_mempool` */
  method SListAppend<T>(list: SNode?<T>, data: T, ghost s: seq<SNode<T>>)
    returns (head: SNode<T>, ghost newList: SNode<T>)
    requires IsSList(list, s)
    modifies (if s == [] then {} else {s[|s| - 1]})`next
    ensures fresh(newList) && newList.data == data
    ensures IsSList(head, s + [newList]) && (list != null ==> head == list)
  {
    var node := new SNode(data, null);
    newList := node;
    if list != null {
      var last := list;
      ghost var i := 0;
      while last.next != null
        invariant 0 <= i < |s| && last == s[i]
        decreases |s| - i
      {
        last := last.next;
        i := i + 1;
      }
      last.next := node;
      ghost var all := s + [newList];
      assert forall j :: 0 <= j < |s| ==> all[j] == s[j] && (j < |s| - 1 ==> s[j] != last);
      head := list;
    } else {
      head := node;
    }
  }

  // ----- Doubly linked lists

  class DNode<T> {
    var data: T
    var next: DNode?<T>
    var prev: DNode?<T>

    constructor (data: T, next: DNode?<T>, prev: DNode?<T>)
      ensures this.data == data && this.next == next && this.prev == prev
    {
      this.data, this.next, this.prev := data, next, prev;
    }
  }

  ghost function DNodeAt<T>(s: seq<DNode<T>>, i: int): DNode?<T> {
    if 0 <= i < |s| then s[i] else null
  }

  /** The nodes of `s` are linked both ways, in order, and end in NULL on both sides. */
  ghost predicate IsDList<T>(s: seq<DNode<T>>)
    reads s
  {
    && (forall i, j :: 0 <= i < j < |s| ==> s[i] != s[j])
    && (forall i {:trigger s[i].next} :: 0 <= i < |s| ==> s[i].next == DNodeAt(s, i + 1))
    && (forall i {:trigger s[i].prev} :: 0 <= i < |s| ==> s[i].prev == DNodeAt(s, i - 1))
  }

  /** `list` is NULL and there are no nodes, or it is node `k`. */
  ghost predicate PointsAt<T>(list: DNode?<T>, s: seq<DNode<T>>, k: nat) {
    if list == null then s == [] && k == 0 else k < |s| && list == s[k]
  }

  /** `g_list_prepend_mempool`, at any node of a list. */
  method ListPrepend<T>(list: DNode?<T>, data: T, ghost s: seq<DNode<T>>, ghost k: nat) returns (newList: DNode<T>)
    requires IsDList(s) && PointsAt(list, s, k)
    modifies s`next, s`prev
    ensures fresh(newList) && newList.data == data
    ensures IsDList(s[..k] + [newList] + s[k..])
  {
    var before := if list != null then list.prev else null;
    newList := new DNode(data, list, before);
    if newList.prev != null {
      newList.prev.next := newList;
    }
    if list != null {
      list.prev := newList;
    }
    ghost var all := s[..k] + [newList] + s[k..];
    assert forall i :: 0 <= i < k ==> all[i] == s[i];
    assert all[k] == newList;
    assert forall i :: k < i < |all| ==> all[i] == s[i - 1];
  }

  /** `g_list_last` walks to the end of the list from any of its nodes. */
  method ListLast<T>(list: DNode?<T>, ghost s: seq<DNode<T>>, ghost k: nat) returns (last: DNode?<T>)
    requires IsDList(s) && PointsAt(list, s, k)
    ensures last == DNodeAt(s, |s| - 1)
  {
    last := list;
    if last != null {
      ghost var i := k;
      while last.next != null
        invariant k <= i < |s| && last == s[i]
        decreases |s| - i
      {
        last := last.next;
        i := i + 1;
      }
    }
  }

  /** `g_list_append_mempool`: the new node goes to the very end, also when `list` is not the first node. */
  method ListAppend<T>(list: DNode?<T>, data: T, ghost s: seq<DNode<T>>, ghost k: nat)
    returns (head: DNode<T>, ghost newList: DNode<T>)
    requires IsDList(s) && PointsAt(list, s, k)
    modifies s`next
    ensures fresh(newList) && newList.data == data && head == if list != null then list else newList
    ensures IsDList(s + [newList])
  {
    var last := ListLast(list, s, k);
    var node := new DNode(data, null, last);
    if node.prev != null {
      node.prev.next := node;
    }
    newList := node;
    head := if list != null then list else node;
    ghost var all := s + [newList];
    assert forall i :: 0 <= i < |s| ==> all[i] == s[i];
    assert all[|s|] == newList;
  }
}
