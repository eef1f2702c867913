/**
  Sequences, merging and stable sorting, on values.

  A comparator `c` answers like a C comparison function: `c(a, b) <= 0` says that `a` may stand before `b`.
  `Merge` is what one call of the in-place merge computes; `Sort` is insertion sort, and it is characterised
  below as the one sorted and stable arrangement of its argument.
 */
module StableMerge {

  ghost function Elems<E>(s: seq<E>): set<E> {
    set x | x in s
  }

  ghost predicate Distinct<E>(s: seq<E>) {
    forall i, j :: 0 <= i < j < |s| ==> s[i] != s[j]
  }

  ghost predicate Disjoint<E>(s: seq<E>, t: seq<E>) {
    forall x :: x in s ==> x !in t
  }

  /** Ties, and everything not strictly out of order, go to the first sequence. */
  ghost function Merge<E>(c: (E, E) -> int, xs: seq<E>, ys: seq<E>): seq<E>
    decreases |xs| + |ys|
  {
    if xs == [] then ys
    else if ys == [] then xs
    else if c(xs[0], ys[0]) > 0 then [ys[0]] + Merge(c, xs, ys[1..])
    else [xs[0]] + Merge(c, xs[1..], ys)
  }

  /** The comparisons made by merging: one for each element that is not part of what is left of one sequence. */
  ghost function MergeCount<E>(c: (E, E) -> int, xs: seq<E>, ys: seq<E>): nat
    decreases |xs| + |ys|
  {
    if xs == [] || ys == [] then 0
    else 1 + if c(xs[0], ys[0]) > 0 then MergeCount(c, xs, ys[1..]) else MergeCount(c, xs[1..], ys)
  }

  /** Stable insertion sort: the oldest element goes in front of the first element it may precede. */
  ghost function Sort<E>(c: (E, E) -> int, s: seq<E>): seq<E> {
    if s == [] then [] else Merge(c, [s[0]], Sort(c, s[1..]))
  }

  /** On the elements of `S`, any two are comparable and the order is transitive. */
  ghost predicate TotalPreorder<E>(c: (E, E) -> int, S: set<E>) {
    && (forall x, y {:trigger c(x, y)} :: x in S && y in S ==> c(x, y) <= 0 || c(y, x) <= 0)
    && (forall x, y, z {:trigger c(x, y), c(y, z)} ::
          x in S && y in S && z in S && c(x, y) <= 0 && c(y, z) <= 0 ==> c(x, z) <= 0)
  }

  // ----- Merging loses and duplicates nothing, whatever the comparator

  lemma {:induction false} MergeLength<E>(c: (E, E) -> int, xs: seq<E>, ys: seq<E>)
    ensures |Merge(c, xs, ys)| == |xs| + |ys|
    decreases |xs| + |ys|
  {
    if xs != [] && ys != [] {
      if c(xs[0], ys[0]) > 0 {
        MergeLength(c, xs, ys[1..]);
      } else {
        MergeLength(c, xs[1..], ys);
      }
    }
  }

  /** Taking the first element of `t` out before combining, and putting it back in front. */
  lemma HeadPermutes<E>(s: seq<E>, t: seq<E>, st: seq<E>)
    requires t != [] && multiset(st) == multiset(s) + multiset(t[1..])
    ensures multiset([t[0]] + st) == multiset(s) + multiset(t)
  {
    assert t == [t[0]] + t[1..];
    assert multiset(t) == multiset{t[0]} + multiset(t[1..]);
    assert multiset([t[0]] + st) == multiset{t[0]} + multiset(st);
  }

  lemma {:induction false} MergePermutes<E>(c: (E, E) -> int, xs: seq<E>, ys: seq<E>)
    ensures multiset(Merge(c, xs, ys)) == multiset(xs) + multiset(ys)
    ensures |Merge(c, xs, ys)| == |xs| + |ys|
    decreases |xs| + |ys|
  {
    MergeLength(c, xs, ys);
    if xs != [] && ys != [] {
      if c(xs[0], ys[0]) > 0 {
        MergePermutes(c, xs, ys[1..]);
        HeadPermutes(xs, ys, Merge(c, xs, ys[1..]));
      } else {
        MergePermutes(c, xs[1..], ys);
        HeadPermutes(ys, xs, Merge(c, xs[1..], ys));
      }
    }
  }

  lemma {:induction false} SortPermutes<E>(c: (E, E) -> int, s: seq<E>)
    ensures multiset(Sort(c, s)) == multiset(s)
    ensures |Sort(c, s)| == |s|
  {
    if s != [] {
      SortPermutes(c, s[1..]);
      MergePermutes(c, [s[0]], Sort(c, s[1..]));
      assert s == [s[0]] + s[1..];
    }
  }

  lemma SameElems<E>(s: seq<E>, t: seq<E>)
    requires multiset(s) == multiset(t)
    ensures Elems(s) == Elems(t)
    ensures forall x :: x in s <==> x in t
  {
    forall x ensures x in s <==> x in t {
      assert x in s <==> x in multiset(s);
      assert x in t <==> x in multiset(t);
    }
  }

  lemma {:induction false} DistinctCounts<E>(s: seq<E>)
    ensures Distinct(s) <==> forall x :: multiset(s)[x] <= 1
  {
    if s != [] {
      var t := s[1..];
      DistinctCounts(t);
      assert s == [s[0]] + t;
      assert forall x :: multiset(s)[x] == multiset(t)[x] + (if x == s[0] then 1 else 0);
      if Distinct(s) {
        assert s[0] !in t;
        assert multiset(t)[s[0]] == 0;
      } else if forall x :: multiset(s)[x] <= 1 {
        assert multiset(t)[s[0]] == 0;
        assert s[0] !in t;
        assert forall x :: multiset(t)[x] <= multiset(s)[x];
        assert Distinct(t);
        assert Distinct(s) by {
          forall i, j | 0 <= i < j < |s| ensures s[i] != s[j] {
            assert s[j] == t[j - 1];
            if i > 0 { assert s[i] == t[i - 1]; }
          }
        }
      }
    }
  }

  lemma DistinctPermutation<E>(s: seq<E>, t: seq<E>)
    requires multiset(s) == multiset(t) && Distinct(s)
    ensures Distinct(t)
  {
    DistinctCounts(s);
    DistinctCounts(t);
  }

  lemma DistinctConcat<E>(s: seq<E>, t: seq<E>)
    ensures Distinct(s + t) <==> Distinct(s) && Distinct(t) && Disjoint(s, t)
  {
    var u := s + t;
    assert forall i :: 0 <= i < |s| ==> u[i] == s[i];
    assert forall i :: 0 <= i < |t| ==> u[|s| + i] == t[i];
    if Distinct(u) {
      forall x | x in s ensures x !in t {
        var i :| 0 <= i < |s| && s[i] == x;
        forall j | 0 <= j < |t| ensures t[j] != x {
          assert u[i] != u[|s| + j];
        }
      }
      assert Distinct(s);
      forall i, j | 0 <= i < j < |t| ensures t[i] != t[j] {
        assert u[|s| + i] != u[|s| + j];
      }
    } else {
      var i, j :| 0 <= i < j < |u| && u[i] == u[j];
      if i < |s| <= j {
        assert s[i] in s && t[j - |s|] in t;
      }
    }
  }

  /** Merging two chains with no node in common gives a sequence without repetitions. */
  lemma MergeDistinct<E>(c: (E, E) -> int, xs: seq<E>, ys: seq<E>)
    requires Distinct(xs) && Distinct(ys) && Disjoint(xs, ys)
    ensures Distinct(Merge(c, xs, ys))
    ensures Elems(Merge(c, xs, ys)) == Elems(xs) + Elems(ys)
    ensures forall x :: x in Merge(c, xs, ys) <==> x in xs || x in ys
  {
    MergePermutes(c, xs, ys);
    DistinctConcat(xs, ys);
    assert multiset(xs + ys) == multiset(Merge(c, xs, ys));
    DistinctPermutation(xs + ys, Merge(c, xs, ys));
    SameElems(xs + ys, Merge(c, xs, ys));
  }

  // ----- For a total preorder, merging is associative, so merging sorts

  lemma {:induction false} MergeAssociative<E>(c: (E, E) -> int, S: set<E>, xs: seq<E>, ys: seq<E>, zs: seq<E>)
    requires TotalPreorder(c, S)
    requires Elems(xs) <= S && Elems(ys) <= S && Elems(zs) <= S
    ensures Merge(c, Merge(c, xs, ys), zs) == Merge(c, xs, Merge(c, ys, zs))
    decreases |xs| + |ys| + |zs|
  {
    if xs != [] && ys != [] && zs != [] {
      var x, y, z := xs[0], ys[0], zs[0];
      assert x in Elems(xs) && y in Elems(ys) && z in Elems(zs);
      assert Elems(xs[1..]) <= Elems(xs) && Elems(ys[1..]) <= Elems(ys) && Elems(zs[1..]) <= Elems(zs);
      var xy, yz := Merge(c, xs, ys), Merge(c, ys, zs);
      if c(x, y) <= 0 && c(x, z) <= 0 {
        MergeAssociative(c, S, xs[1..], ys, zs);
        assert xy[1..] == Merge(c, xs[1..], ys);
      } else if c(x, y) > 0 && c(y, z) <= 0 {
        MergeAssociative(c, S, xs, ys[1..], zs);
        assert xy[1..] == Merge(c, xs, ys[1..]);
        assert yz[1..] == Merge(c, ys[1..], zs);
      } else {
        MergeAssociative(c, S, xs, ys, zs[1..]);
        assert yz[1..] == Merge(c, ys, zs[1..]);
      }
    }
  }

  lemma SortElems<E>(c: (E, E) -> int, s: seq<E>)
    ensures Elems(Sort(c, s)) == Elems(s)
  {
    SortPermutes(c, s);
    SameElems(s, Sort(c, s));
  }

  /** The stable sort of an older block followed by a newer one is the merge of the two sorted blocks. */
  lemma {:induction false} SortConcat<E>(c: (E, E) -> int, S: set<E>, older: seq<E>, newer: seq<E>)
    requires TotalPreorder(c, S) && Elems(older) <= S && Elems(newer) <= S
    ensures Merge(c, Sort(c, older), Sort(c, newer)) == Sort(c, older + newer)
  {
    if older == [] {
      assert older + newer == newer;
    } else {
      var x, rest := older[0], older[1..];
      assert (older + newer)[1..] == rest + newer;
      assert x in Elems(older) && Elems(rest) <= Elems(older);
      SortConcat(c, S, rest, newer);
      SortElems(c, rest);
      SortElems(c, newer);
      MergeAssociative(c, S, [x], Sort(c, rest), Sort(c, newer));
    }
  }

  // ----- Runs: what a list kept by the sort is, relative to the block of the input it came from

  /** `run` rearranges `block`, and for a total preorder it is the stable sort of `block`. */
  ghost predicate IsRun<E>(c: (E, E) -> int, run: seq<E>, block: seq<E>) {
    && multiset(run) == multiset(block)
    && (TotalPreorder(c, Elems(block)) ==> run == Sort(c, block))
  }

  lemma RunMeans<E>(c: (E, E) -> int, run: seq<E>, block: seq<E>)
    requires IsRun(c, run, block)
    ensures multiset(run) == multiset(block)
    ensures TotalPreorder(c, Elems(block)) ==> run == Sort(c, block)
  {
  }

  lemma RunLength<E>(c: (E, E) -> int, run: seq<E>, block: seq<E>)
    requires IsRun(c, run, block)
    ensures |run| == |block|
  {
    assert |run| == |multiset(run)| == |multiset(block)|;
  }

  lemma SmallRun<E>(c: (E, E) -> int, s: seq<E>)
    requires |s| <= 1
    ensures IsRun(c, s, s)
  {
    if s != [] {
      assert Sort(c, s[1..]) == [] && s == [s[0]];
    }
  }

  lemma PairRun<E>(c: (E, E) -> int, x: E, y: E)
    ensures IsRun(c, if c(x, y) > 0 then [y, x] else [x, y], [x, y])
  {
    SmallRun(c, [x]);
    SmallRun(c, [y]);
    MergeRuns(c, [x], [x], [y], [y]);
    assert [x] + [y] == [x, y];
    assert Merge(c, [x], [y]) == if c(x, y) > 0 then [y, x] else [x, y];
  }

  lemma MergeRuns<E>(c: (E, E) -> int, run1: seq<E>, block1: seq<E>, run2: seq<E>, block2: seq<E>)
    requires IsRun(c, run1, block1) && IsRun(c, run2, block2)
    ensures IsRun(c, Merge(c, run1, run2), block1 + block2)
  {
    MergePermutes(c, run1, run2);
    if TotalPreorder(c, Elems(block1 + block2)) {
      assert Elems(block1) <= Elems(block1 + block2);
      assert Elems(block2) <= Elems(block1 + block2);
      SortConcat(c, Elems(block1 + block2), block1, block2);
    }
  }

  // ----- What Sort means: the only sorted and stable arrangement

  /** `x` occurs at an earlier position of `s` than `y`. */
  ghost predicate Before<E>(s: seq<E>, x: E, y: E) {
    exists i, j :: 0 <= i < j < |s| && s[i] == x && s[j] == y
  }

  /** `x` may stand before `y`; of equivalent elements only the one that is older in `s` may. */
  ghost predicate Ordered<E>(c: (E, E) -> int, s: seq<E>, x: E, y: E) {
    c(x, y) <= 0 && (c(y, x) <= 0 ==> Before(s, x, y))
  }

  ghost predicate AllOrdered<E>(c: (E, E) -> int, s: seq<E>, r: seq<E>) {
    forall i, j :: 0 <= i < j < |r| ==> Ordered(c, s, r[i], r[j])
  }

  /** `r` arranges the elements of `s` in order, and equivalent elements in their order in `s`. */
  ghost predicate StablySorted<E>(c: (E, E) -> int, s: seq<E>, r: seq<E>) {
    && multiset(r) == multiset(s)
    && AllOrdered(c, s, r)
  }

  /** Where a single older element lands: after exactly the leading elements it must not precede. */
  lemma {:induction false} InsertAt<E>(c: (E, E) -> int, x: E, s: seq<E>, k: nat)
    requires k <= |s|
    requires forall i :: 0 <= i < k ==> c(x, s[i]) > 0
    requires k < |s| ==> c(x, s[k]) <= 0
    ensures Merge(c, [x], s) == s[..k] + [x] + s[k..]
  {
    hide Merge;
    MergeOne(c, x, s);
    if k > 0 {
      InsertAt(c, x, s[1..], k - 1);
      TailSplit(s, k);
      PutInFront([s[0]], s[1..][..k - 1], [x], s[k..]);
    } else {
      assert s[..0] + [x] + s[0..] == [x] + s;
    }
  }

  lemma MergeOne<E>(c: (E, E) -> int, x: E, s: seq<E>)
    ensures Merge(c, [x], s) ==
      if s == [] || c(x, s[0]) <= 0 then [x] + s else [s[0]] + Merge(c, [x], s[1..])
  {
    assert [x][1..] == [] && [x] + [] == [x];
    assert Merge(c, [], s) == s;
  }

  lemma PutInFront<E>(head: seq<E>, low: seq<E>, mid: seq<E>, high: seq<E>)
    ensures head + (low + mid + high) == (head + low) + mid + high
  {
  }

  lemma TailSplit<E>(s: seq<E>, k: nat)
    requires 0 < k <= |s|
    ensures [s[0]] + s[1..][..k - 1] == s[..k] && s[1..][k - 1..] == s[k..]
  {
  }

  lemma {:induction false} InsertPoint<E>(c: (E, E) -> int, x: E, s: seq<E>) returns (k: nat)
    ensures k <= |s|
    ensures forall i :: 0 <= i < k ==> c(x, s[i]) > 0
    ensures k < |s| ==> c(x, s[k]) <= 0
    ensures Merge(c, [x], s) == s[..k] + [x] + s[k..]
  {
    k := 0;
    while k < |s| && c(x, s[k]) > 0
      invariant k <= |s|
      invariant forall i :: 0 <= i < k ==> c(x, s[i]) > 0
    {
      k := k + 1;
    }
    InsertAt(c, x, s, k);
  }

  /** The head of `s` comes after `y` in the merge only if it must, and before `y` only if it may. */
  lemma HeadOrdered<E>(c: (E, E) -> int, s: seq<E>, y: E)
    requires TotalPreorder(c, Elems(s)) && s != [] && y in s[1..]
    ensures if c(s[0], y) <= 0 then Ordered(c, s, s[0], y) else Ordered(c, s, y, s[0])
  {
    var j :| 0 <= j < |s[1..]| && s[1..][j] == y;
    assert s[0] == s[0] && s[j + 1] == y;
    assert s[0] in Elems(s) && y in Elems(s);
    assert c(s[0], y) <= 0 || c(y, s[0]) <= 0;
  }

  lemma HeadBelow<E>(c: (E, E) -> int, S: set<E>, x: E, t: seq<E>, k: nat, j: nat)
    requires TotalPreorder(c, S) && x in S && Elems(t) <= S
    requires k <= j < |t| && c(x, t[k]) <= 0 && (k < j ==> c(t[k], t[j]) <= 0)
    ensures c(x, t[j]) <= 0
  {
    assert t[k] in Elems(t) && t[j] in Elems(t);
  }

  lemma InsertOrdered<E>(c: (E, E) -> int, s: seq<E>, t: seq<E>, k: nat)
    requires TotalPreorder(c, Elems(s)) && s != [] && k <= |t|
    requires AllOrdered(c, s[1..], t) && Elems(t) == Elems(s[1..])
    requires forall i :: 0 <= i < k ==> c(s[0], t[i]) > 0
    requires k < |t| ==> c(s[0], t[k]) <= 0
    ensures AllOrdered(c, s, t[..k] + [s[0]] + t[k..])
  {
    var r := t[..k] + [s[0]] + t[k..];
    forall i, j | 0 <= i < j < |r| ensures Ordered(c, s, r[i], r[j]) {
      if i == k {
        assert r[j] == t[j - 1] && t[j - 1] in Elems(t);
        assert k < j - 1 ==> Ordered(c, s[1..], t[k], t[j - 1]);
        assert s[0] in Elems(s) && Elems(s[1..]) <= Elems(s);
        HeadBelow(c, Elems(s), s[0], t, k, j - 1);
        HeadOrdered(c, s, t[j - 1]);
      } else if j == k {
        assert r[i] == t[i] && t[i] in Elems(t);
        HeadOrdered(c, s, t[i]);
      } else {
        var i', j' := if i < k then i else i - 1, if j < k then j else j - 1;
        assert r[i] == t[i'] && r[j] == t[j'];
        assert Ordered(c, s[1..], t[i'], t[j']);
        if c(r[j], r[i]) <= 0 { BeforeTail(s, r[i], r[j]); }
      }
    }
  }

  lemma {:induction false} SortIsStablySorted<E>(c: (E, E) -> int, s: seq<E>)
    requires TotalPreorder(c, Elems(s))
    ensures StablySorted(c, s, Sort(c, s))
  {
    SortPermutes(c, s);
    if s != [] {
      assert Elems(s[1..]) <= Elems(s);
      SortIsStablySorted(c, s[1..]);
      SortElems(c, s[1..]);
      var k := InsertPoint(c, s[0], Sort(c, s[1..]));
      InsertOrdered(c, s, Sort(c, s[1..]), k);
    }
  }

  lemma BeforeTail<E>(s: seq<E>, x: E, y: E)
    requires s != [] && Before(s[1..], x, y)
    ensures Before(s, x, y)
  {
    var i, j :| 0 <= i < j < |s[1..]| && s[1..][i] == x && s[1..][j] == y;
    assert s[i + 1] == x && s[j + 1] == y;
  }

  lemma RemoveAt<E>(r: seq<E>, k: nat)
    requires k < |r|
    ensures multiset(r[..k] + r[k + 1..]) == multiset(r) - multiset{r[k]}
  {
    var low, high := r[..k], r[k + 1..];
    assert r == low + ([r[k]] + high);
    assert multiset(r) == multiset(low) + multiset([r[k]] + high);
    assert multiset([r[k]] + high) == multiset{r[k]} + multiset(high);
    assert multiset(low + high) == multiset(low) + multiset(high);
  }

  lemma DropFirst<E>(s: seq<E>)
    requires s != []
    ensures multiset(s[1..]) == multiset(s) - multiset{s[0]}
  {
    assert s[..0] + s[1..] == s[1..];
    RemoveAt(s, 0);
  }

  lemma RemoveHead<E>(r: seq<E>, s: seq<E>) returns (k: nat)
    requires s != [] && multiset(r) == multiset(s)
    ensures k < |r| && r[k] == s[0]
    ensures multiset(r[..k] + r[k + 1..]) == multiset(s[1..])
  {
    k := Position(r, s, s[0]);
    RemoveAt(r, k);
    DropFirst(s);
  }

  lemma Position<E>(r: seq<E>, s: seq<E>, x: E) returns (k: nat)
    requires multiset(r) == multiset(s) && x in s
    ensures k < |r| && r[k] == x
  {
    SameElems(r, s);
    k :| 0 <= k < |r| && r[k] == x;
  }

  lemma HeadFirst<E>(s: seq<E>, x: E)
    requires Distinct(s) && s != []
    ensures !Before(s, x, s[0])
  {
  }

  lemma RemoveOrdered<E>(c: (E, E) -> int, s: seq<E>, r: seq<E>, k: nat)
    requires Distinct(r) && s != [] && k < |r| && r[k] == s[0] && AllOrdered(c, s, r)
    ensures AllOrdered(c, s[1..], r[..k] + r[k + 1..])
  {
    var t := r[..k] + r[k + 1..];
    forall i, j | 0 <= i < j < |t| ensures Ordered(c, s[1..], t[i], t[j]) {
      var i', j' := if i < k then i else i + 1, if j < k then j else j + 1;
      assert t[i] == r[i'] && t[j] == r[j'];
      assert Ordered(c, s, r[i'], r[j']);
      if c(t[j], t[i]) <= 0 {
        var p, q :| 0 <= p < q < |s| && s[p] == t[i] && s[q] == t[j];
        assert r[i'] != r[k];
        assert s[1..][p - 1] == t[i] && s[1..][q - 1] == t[j];
      }
    }
  }

  lemma HeadPlace<E>(c: (E, E) -> int, s: seq<E>, r: seq<E>, k: nat)
    requires Distinct(s) && s != [] && k < |r| && r[k] == s[0] && AllOrdered(c, s, r)
    ensures forall i :: 0 <= i < k ==> c(s[0], r[i]) > 0
    ensures k + 1 < |r| ==> c(s[0], r[k + 1]) <= 0
  {
    forall i | 0 <= i < k ensures c(s[0], r[i]) > 0 {
      assert Ordered(c, s, r[i], r[k]);
      HeadFirst(s, r[i]);
    }
    if k + 1 < |r| { assert Ordered(c, s, r[k], r[k + 1]); }
  }

  lemma DistinctTail<E>(s: seq<E>)
    requires Distinct(s) && s != []
    ensures Distinct(s[1..])
  {
  }

  lemma {:induction false} StablySortedUnique<E>(c: (E, E) -> int, s: seq<E>, r: seq<E>)
    requires Distinct(s) && StablySorted(c, s, r)
    ensures r == Sort(c, s)
    decreases |s|
  {
    hide Distinct, AllOrdered, Merge;
    if s == [] {
      assert |r| == |multiset(r)| == |multiset(s)|;
    } else {
      var k := RemoveHead(r, s);
      var t := r[..k] + r[k + 1..];
      DistinctPermutation(s, r);
      RemoveOrdered(c, s, r, k);
      assert Distinct(s[1..]) by { DistinctTail(s); }
      StablySortedUnique(c, s[1..], t);
      HeadPlace(c, s, r, k);
      InsertAt(c, s[0], t, k);
      assert t[..k] + [r[k]] + t[k..] == r;
    }
  }

  /** For a total preorder, `r` is the insertion sort of `s` exactly when it is a sorted, stable arrangement of it. */
  lemma SortCharacterised<E>(c: (E, E) -> int, s: seq<E>, r: seq<E>)
    requires TotalPreorder(c, Elems(s)) && Distinct(s)
    ensures r == Sort(c, s) <==> StablySorted(c, s, r)
  {
    SortIsStablySorted(c, s);
    if StablySorted(c, s, r) {
      StablySortedUnique(c, s, r);
    }
  }
}
