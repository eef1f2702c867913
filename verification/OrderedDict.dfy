/**
  Dictionaries that remember insertion order, as sequences of key-value pairs without repeated keys. Assigning to a
  present key keeps its position; a new key goes to the end.
 */
module OrderedDict {

  type Dict<K, V> = seq<(K, V)>

  ghost predicate KeysDistinct<K, V>(d: Dict<K, V>) {
    forall i, j :: 0 <= i < j < |d| ==> d[i].0 != d[j].0
  }

  /** The position of a key, or the number of pairs. */
  function Find<K(==), V>(d: Dict<K, V>, k: K): (i: nat)
    ensures i <= |d| && (i < |d| ==> d[i].0 == k)
    ensures forall j :: 0 <= j < i ==> d[j].0 != k
  {
    if d == [] || d[0].0 == k then 0 else 1 + Find(d[1..], k)
  }

  predicate HasKey<K(==), V>(d: Dict<K, V>, k: K) {
    Find(d, k) < |d|
  }

  function Get<K(==), V>(d: Dict<K, V>, k: K): V
    requires HasKey(d, k)
  {
    d[Find(d, k)].1
  }

  /** The assignment d[k] = v. */
  function Put<K(==), V>(d: Dict<K, V>, k: K, v: V): Dict<K, V> {
    var i := Find(d, k);
    if i < |d| then d[i := (k, v)] else d + [(k, v)]
  }

  /** The assignments of all the pairs of `es`, in order. */
  function PutAll<K(==), V>(d: Dict<K, V>, es: seq<(K, V)>): Dict<K, V>
    decreases |es|
  {
    if es == [] then d else PutAll(Put(d, es[0].0, es[0].1), es[1..])
  }

  ghost function Values<K, V>(d: seq<(K, V)>): set<V> {
    set i | 0 <= i < |d| :: d[i].1
  }

  lemma FindKey<K, V>(d: Dict<K, V>, i: nat)
    requires KeysDistinct(d) && i < |d|
    ensures Find(d, d[i].0) == i
  {
    assert !(Find(d, d[i].0) > i);
  }

  lemma PutDistinct<K, V>(d: Dict<K, V>, k: K, v: V)
    requires KeysDistinct(d)
    ensures KeysDistinct(Put(d, k, v))
  {
  }

  /** The pair at each position, and the length, after an assignment: a present key keeps its place. */
  ghost predicate Assigned<K, V>(d: Dict<K, V>, k: K, v: V, d': Dict<K, V>) {
    && |d| <= |d'| <= |d| + 1
    && (forall i :: 0 <= i < |d| ==> d'[i] == if d[i].0 == k then (k, v) else d[i])
    && (|d'| == |d| <==> exists i :: 0 <= i < |d| && d[i].0 == k)
    && (|d'| == |d| + 1 ==> d'[|d|] == (k, v))
  }

  lemma PutInPlace<K, V>(d: Dict<K, V>, k: K, v: V, d': Dict<K, V>)
    requires KeysDistinct(d)
    ensures Assigned(d, k, v, d') <==> d' == Put(d, k, v)
  {
    var i := Find(d, k);
    assert Assigned(d, k, v, Put(d, k, v));
    if Assigned(d, k, v, d') {
      assert |d'| == |Put(d, k, v)|;
      assert forall j :: 0 <= j < |d'| ==> d'[j] == Put(d, k, v)[j];
    }
  }

  lemma NothingPut<K, V>(d: Dict<K, V>)
    ensures PutAll(d, []) == d
  {
  }

  lemma {:induction false} PutAllDistinct<K, V>(d: Dict<K, V>, es: seq<(K, V)>)
    requires KeysDistinct(d)
    ensures KeysDistinct(PutAll(d, es))
    decreases |es|
  {
    if es != [] {
      PutDistinct(d, es[0].0, es[0].1);
      PutAllDistinct(Put(d, es[0].0, es[0].1), es[1..]);
    }
  }

  lemma {:induction false} PutAllSnoc<K, V>(d: Dict<K, V>, es: seq<(K, V)>, e: (K, V))
    ensures PutAll(d, es + [e]) == Put(PutAll(d, es), e.0, e.1)
    decreases |es|
  {
    if es == [] {
      assert (es + [e])[1..] == [];
    } else {
      assert (es + [e])[1..] == es[1..] + [e];
      PutAllSnoc(Put(d, es[0].0, es[0].1), es[1..], e);
    }
  }

  lemma {:induction false} PutAllAppends<K, V>(d: Dict<K, V>, es: seq<(K, V)>)
    requires KeysDistinct(d + es)
    ensures PutAll(d, es) == d + es
    decreases |es|
  {
    if es == [] {
      assert d + es == d;
    } else {
      var all := d + es;
      assert all[|d|] == es[0];
      assert forall j :: 0 <= j < |d| ==> all[j] == d[j];
      assert Put(d, es[0].0, es[0].1) == d + [es[0]];
      assert d + [es[0]] + es[1..] == all;
      PutAllAppends(d + [es[0]], es[1..]);
    }
  }

  /** Assigning a list of pairs simply appends them exactly when no key is repeated. */
  lemma PutAllExact<K, V>(d: Dict<K, V>, es: seq<(K, V)>)
    requires KeysDistinct(d)
    ensures PutAll(d, es) == d + es <==> KeysDistinct(d + es)
  {
    if KeysDistinct(d + es) {
      PutAllAppends(d, es);
    } else {
      PutAllDistinct(d, es);
    }
  }

  // ----- Which assignments survive

  lemma PutPairs<K, V>(d: Dict<K, V>, k: K, v: V, p: (K, V))
    requires KeysDistinct(d)
    ensures p in Put(d, k, v) <==> if p.0 == k then p.1 == v else p in d
  {
    var i := Find(d, k);
    var d' := Put(d, k, v);
    assert d'[i] == (k, v);
    if p in d && p.0 != k {
      var j :| 0 <= j < |d| && d[j] == p;
      assert d'[j] == p;
    }
    if p in d' {
      var j :| 0 <= j < |d'| && d'[j] == p;
    }
  }

  /** The assignment at `k` is the last one to its key. */
  ghost predicate IsLast<K, V>(es: seq<(K, V)>, k: int) {
    0 <= k < |es| && forall l :: k < l < |es| ==> es[l].0 != es[k].0
  }

  lemma IsLastSnoc<K, V>(es: seq<(K, V)>, e: (K, V), k: int)
    ensures IsLast(es + [e], k) <==> k == |es| || (IsLast(es, k) && es[k].0 != e.0)
  {
    var all := es + [e];
    assert all[|es|] == e && forall l :: 0 <= l < |es| ==> all[l] == es[l];
    if IsLast(all, k) && k < |es| {
      assert all[|es|].0 != all[k].0;
      forall l | k < l < |es| ensures es[l].0 != es[k].0 { assert all[l].0 != all[k].0; }
    }
  }

  /** The dictionary holds the last pair assigned to each key. */
  lemma {:induction false} PutAllPairs<K, V>(es: seq<(K, V)>, p: (K, V))
    ensures p in PutAll([], es) <==> exists k :: IsLast(es, k) && es[k] == p
    decreases |es|
  {
    var empty: Dict<K, V> := [];
    if es != [] {
      var n := |es| - 1;
      var es', e := es[..n], es[n];
      assert es == es' + [e];
      PutAllPairs(es', p);
      PutAllSnoc(empty, es', e);
      PutAllDistinct(empty, es');
      PutPairs(PutAll(empty, es'), e.0, e.1, p);
      LastPair(es', e, p);
    }
  }

  lemma LastPair<K, V>(es: seq<(K, V)>, e: (K, V), p: (K, V))
    ensures (exists k :: IsLast(es + [e], k) && (es + [e])[k] == p) <==>
      if p.0 == e.0 then p == e else exists k :: IsLast(es, k) && es[k] == p
  {
    var all := es + [e];
    IsLastSnoc(es, e, |es|);
    if k :| IsLast(all, k) && all[k] == p {
      IsLastSnoc(es, e, k);
    }
    if k :| IsLast(es, k) && es[k] == p && p.0 != e.0 {
      IsLastSnoc(es, e, k);
      assert all[k] == p;
    }
    if p == e {
      assert IsLast(all, |es|) && all[|es|] == p;
    }
  }

  /** Some entry with this value is not overwritten. */
  ghost predicate Carried<K, V>(es: seq<(K, V)>, v: V) {
    exists k :: IsLast(es, k) && es[k].1 == v
  }

  /** The values of the dictionary are those whose assignment is the last one to its key. */
  lemma PutAllValues<K, V>(es: seq<(K, V)>, v: V)
    ensures v in Values(PutAll([], es)) <==> Carried(es, v)
    ensures Carried(es, v) ==> v in Values(es)
  {
    var d := PutAll([], es);
    if v in Values(d) {
      var i :| 0 <= i < |d| && d[i].1 == v;
      PutAllPairs(es, d[i]);
    }
    if k :| IsLast(es, k) && es[k].1 == v {
      PutAllPairs(es, es[k]);
      var i :| 0 <= i < |d| && d[i] == es[k];
    }
  }

  /** No value is lost exactly when each is carried by an entry that is not overwritten. */
  lemma ValuesKeptExactly<K, V>(es: seq<(K, V)>)
    ensures Values(PutAll([], es)) <= Values(es)
    ensures Values(PutAll([], es)) == Values(es) <==> forall i :: 0 <= i < |es| ==> Carried(es, es[i].1)
  {
    hide Carried, PutAll;
    forall v | v in Values(PutAll([], es)) ensures v in Values(es) {
      PutAllValues(es, v);
    }
    forall i | 0 <= i < |es| ensures es[i].1 in Values(PutAll([], es)) <==> Carried(es, es[i].1) {
      PutAllValues(es, es[i].1);
    }
    assert forall i :: 0 <= i < |es| ==> es[i].1 in Values(es);
  }

  /** When no value occurs twice, a repeated key always costs a value. */
  lemma ValuesKeptOnce<K, V>(es: seq<(K, V)>)
    requires forall i, j :: 0 <= i < j < |es| ==> es[i].1 != es[j].1
    ensures Values(PutAll([], es)) == Values(es) <==> KeysDistinct(es)
  {
    ValuesKeptExactly(es);
    if KeysDistinct(es) {
      forall i | 0 <= i < |es| ensures Carried(es, es[i].1) { assert IsLast(es, i); }
    }
    if Values(PutAll([], es)) == Values(es) {
      forall i, j | 0 <= i < j < |es| ensures es[i].0 != es[j].0 {
        var k :| IsLast(es, k) && es[k].1 == es[i].1;
        assert k == i;
      }
    }
  }

  lemma {:induction false} LastTo<K, V>(es: seq<(K, V)>, i: nat) returns (k: nat)
    requires i < |es|
    ensures IsLast(es, k) && es[k].0 == es[i].0
    decreases |es| - i
  {
    if j :| i < j < |es| && es[j].0 == es[i].0 {
      k := LastTo(es, j);
    } else {
      k := i;
    }
  }

  ghost predicate Agree<K, V>(es: seq<(K, V)>) {
    forall i, j :: 0 <= i < j < |es| && es[i].0 == es[j].0 ==> es[i].1 == es[j].1
  }

  /** If equal keys come with equal values, no value is lost. */
  lemma AgreeingValues<K, V>(es: seq<(K, V)>)
    requires Agree(es)
    ensures forall i :: 0 <= i < |es| ==> Carried(es, es[i].1)
  {
    forall i | 0 <= i < |es| ensures Carried(es, es[i].1) {
      var k := LastTo(es, i);
      assert es[k].1 == es[i].1;
    }
  }

  // ----- Pairs whose keys nobody assigns to

  ghost function Filter<K, V>(d: seq<(K, V)>, p: K -> bool): seq<(K, V)> {
    if d == [] then []
    else Filter(d[..|d| - 1], p) + if p(d[|d| - 1].0) then [d[|d| - 1]] else []
  }

  lemma {:induction false} FilterPut<K, V>(d: Dict<K, V>, k: K, v: V, p: K -> bool)
    requires !p(k)
    ensures Filter(Put(d, k, v), p) == Filter(d, p)
  {
    var i := Find(d, k);
    if i == |d| {
      assert (d + [(k, v)])[..|d|] == d;
    } else {
      FilterUpdate(d, i, (k, v), p);
    }
  }

  lemma {:induction false} FilterUpdate<K, V>(d: Dict<K, V>, i: nat, e: (K, V), p: K -> bool)
    requires i < |d| && !p(e.0) && !p(d[i].0)
    ensures Filter(d[i := e], p) == Filter(d, p)
  {
    var n := |d| - 1;
    if i == n {
      assert d[i := e][..n] == d[..n];
    } else {
      assert d[i := e][..n] == d[..n][i := e];
      FilterUpdate(d[..n], i, e, p);
    }
  }

  /** The keys of `es` selected by `p` are assigned once, and are not in `d`. */
  ghost predicate OnceAndNew<K, V>(d: Dict<K, V>, es: seq<(K, V)>, p: K -> bool) {
    && (forall i, j :: 0 <= i < |d| && 0 <= j < |es| && p(es[j].0) ==> d[i].0 != es[j].0)
    && (forall i, j :: 0 <= i < j < |es| && p(es[j].0) ==> es[i].0 != es[j].0)
  }

  /** Such keys end up behind those of `d`, in the order of assignment. */
  lemma {:induction false} FilterPutAll<K, V>(d: Dict<K, V>, es: seq<(K, V)>, p: K -> bool)
    requires OnceAndNew(d, es, p)
    ensures Filter(PutAll(d, es), p) == Filter(d, p) + Filter(es, p)
    decreases |es|
  {
    hide OnceAndNew, Put, PutAll;
    if es == [] {
      assert PutAll(d, es) == d by { NothingPut(d); }
      assert Filter(es, p) == [];
    } else {
      var n := |es| - 1;
      var es', e := es[..n], es[n];
      assert es == es' + [e];
      OnceAndNewPrefix(d, es, n, p);
      FilterPutAll(d, es', p);
      PutAllSnoc(d, es', e);
      FilterLast(PutAll(d, es'), d, es', e, p);
      FilterSnoc(es', e, p);
      FilterSum(Filter(d, p), Filter(es', p), if p(e.0) then [e] else []);
    }
  }

  lemma FilterSum<E>(r: seq<E>, s: seq<E>, t: seq<E>)
    ensures (r + s) + t == r + (s + t)
  {
  }

  lemma FilterSnoc<K, V>(es: seq<(K, V)>, e: (K, V), p: K -> bool)
    ensures Filter(es + [e], p) == Filter(es, p) + if p(e.0) then [e] else []
  {
    assert (es + [e])[..|es|] == es;
  }

  lemma OnceAndNewPrefix<K, V>(d: Dict<K, V>, es: seq<(K, V)>, n: nat, p: K -> bool)
    requires OnceAndNew(d, es, p) && n < |es|
    ensures OnceAndNew(d, es[..n], p)
    ensures p(es[n].0) ==>
      (forall i :: 0 <= i < |d| ==> d[i].0 != es[n].0) && (forall i :: 0 <= i < n ==> es[..n][i].0 != es[n].0)
  {
  }

  lemma FilterLast<K, V>(d': Dict<K, V>, d: Dict<K, V>, es: seq<(K, V)>, e: (K, V), p: K -> bool)
    requires d' == PutAll(d, es)
    requires p(e.0) ==> (forall i :: 0 <= i < |d| ==> d[i].0 != e.0) && (forall i :: 0 <= i < |es| ==> es[i].0 != e.0)
    ensures Filter(Put(d', e.0, e.1), p) == Filter(d', p) + if p(e.0) then [e] else []
  {
    if p(e.0) {
      NewKey(d, es, e.0);
      assert Put(d', e.0, e.1) == d' + [e];
      assert (d' + [e])[..|d'|] == d';
    } else {
      FilterPut(d', e.0, e.1, p);
    }
  }

  // ----- Which keys there are

  lemma HasKeyIs<K, V>(d: Dict<K, V>, k: K)
    ensures HasKey(d, k) <==> exists i :: 0 <= i < |d| && d[i].0 == k
  {
  }

  lemma EmptyHasNoKey<K, V>(k: K)
    ensures !HasKey<K, V>([], k)
  {
  }

  lemma PutKeys<K, V>(d: Dict<K, V>, k: K, v: V, k': K)
    ensures HasKey(Put(d, k, v), k') <==> HasKey(d, k') || k' == k
  {
    var i := Find(d, k);
    var d' := Put(d, k, v);
    assert d'[i].0 == k;
    assert forall j :: 0 <= j < |d| ==> d'[j].0 == d[j].0;
    HasKeyIs(d, k');
    HasKeyIs(d', k');
  }

  lemma {:induction false} PutAllKeys<K, V>(d: Dict<K, V>, es: seq<(K, V)>, k: K)
    ensures HasKey(PutAll(d, es), k) <==> HasKey(d, k) || exists i :: 0 <= i < |es| && es[i].0 == k
    decreases |es|
  {
    if es != [] {
      PutKeys(d, es[0].0, es[0].1, k);
      PutAllKeys(Put(d, es[0].0, es[0].1), es[1..], k);
      if i :| 0 < i < |es| && es[i].0 == k { assert es[1..][i - 1].0 == k; }
    }
  }

  lemma FindSnoc<K, V>(es: seq<(K, V)>, e: (K, V), k: K)
    ensures Find(es + [e], k) == if HasKey(es, k) then Find(es, k) else if e.0 == k then |es| else |es| + 1
  {
    var all := es + [e];
    var i := Find(all, k);
    assert forall j :: 0 <= j < |es| ==> all[j] == es[j];
    assert all[|es|] == e;
    if HasKey(es, k) { assert all[Find(es, k)].0 == k; }
  }

  /** The keys stand in the order of their first assignments. */
  lemma {:induction false} PutAllOrder<K, V>(es: seq<(K, V)>)
    ensures var d := PutAll([], es);
      && (forall i :: 0 <= i < |d| ==> HasKey(es, d[i].0))
      && (forall i, j :: 0 <= i < j < |d| ==> Find(es, d[i].0) < Find(es, d[j].0))
    decreases |es|
  {
    var empty: Dict<K, V> := [];
    if es != [] {
      var n := |es| - 1;
      var es', e := es[..n], es[n];
      assert es == es' + [e];
      PutAllOrder(es');
      PutAllSnoc(empty, es', e);
      PutAllDistinct(empty, es');
      PutAllKeys(empty, es', e.0);
      HasKeyIs(es', e.0);
      OrderAfter(PutAll(empty, es'), es', e);
    }
  }

  lemma OrderAfter<K, V>(d: Dict<K, V>, es: seq<(K, V)>, e: (K, V))
    requires KeysDistinct(d) && (forall i :: 0 <= i < |d| ==> HasKey(es, d[i].0))
    requires HasKey(es, e.0) ==> HasKey(d, e.0)
    requires forall i, j :: 0 <= i < j < |d| ==> Find(es, d[i].0) < Find(es, d[j].0)
    ensures var d' := Put(d, e.0, e.1);
      && (forall i :: 0 <= i < |d'| ==> HasKey(es + [e], d'[i].0))
      && (forall i, j :: 0 <= i < j < |d'| ==> Find(es + [e], d'[i].0) < Find(es + [e], d'[j].0))
  {
    hide Find, Put;
    var d' := Put(d, e.0, e.1);
    PutInPlace(d, e.0, e.1, d');
    HasKeyIs(d, e.0);
    forall i | 0 <= i < |d'|
      ensures HasKey(es + [e], d'[i].0)
      ensures Find(es + [e], d'[i].0) == if i < |d| then Find(es, d[i].0) else |es|
    {
      FindSnoc(es, e, d'[i].0);
    }
  }

  lemma {:induction false} NewKey<K, V>(d: Dict<K, V>, es: seq<(K, V)>, k: K)
    requires forall i :: 0 <= i < |d| ==> d[i].0 != k
    requires forall i :: 0 <= i < |es| ==> es[i].0 != k
    ensures !HasKey(PutAll(d, es), k)
    decreases |es|
  {
    if es != [] {
      NewKey(Put(d, es[0].0, es[0].1), es[1..], k);
    }
  }
}
