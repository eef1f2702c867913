/**
  The constant-time subclass test of headers/mono/metadata/class-internals.h, against the chain of parent links.
 */
module ClassHierarchy {

  class MonoClass {
    const parent: MonoClass?
    ghost const depth: nat  // the length of the parent chain, counting the class itself
    var supertypes: array?<MonoClass?>
    var idepth: nat

    constructor (parent: MonoClass?)
      requires parent != null ==> Rooted(parent)
      ensures this.parent == parent && supertypes == null && Rooted(this) && TableCorrect()
    {
      this.parent := parent;
      depth := if parent == null then 1 else parent.depth + 1;
      supertypes, idepth := null, 0;
    }

    /** A table, if there is one, holds the ancestor of depth d + 1 in slot d, and the class itself in the last one. */
    ghost predicate TableCorrect()
      reads this, supertypes
    {
      supertypes != null ==>
        && idepth == depth <= supertypes.Length
        && forall d :: 0 <= d < depth ==> supertypes[d] == Ancestor(this, depth - 1 - d)
    }
  }

  /** The depths along the parent chain are right; in particular the chain ends. */
  ghost predicate Rooted(c: MonoClass)
    decreases c.depth
  {
    && c.depth >= 1
    && if c.parent == null then c.depth == 1 else c.parent.depth == c.depth - 1 && Rooted(c.parent)
  }

  /** The class reached by following `n` parent links. */
  ghost function Ancestor(c: MonoClass?, n: nat): MonoClass? {
    if n == 0 || c == null then c else Ancestor(c.parent, n - 1)
  }

  /** `p` is reached from `c` by following zero or more parent links. */
  ghost predicate Descends(c: MonoClass, p: MonoClass) {
    exists n :: Ancestor(c, n) == p
  }

  lemma {:induction false} AncestorDepth(c: MonoClass, n: nat)
    requires Rooted(c)
    ensures n < c.depth ==> Ancestor(c, n) != null && Rooted(Ancestor(c, n)) && Ancestor(c, n).depth == c.depth - n
    ensures n >= c.depth ==> Ancestor(c, n) == null
    decreases n
  {
    if n > 0 && c.parent != null {
      AncestorDepth(c.parent, n - 1);
    }
  }

  /** An ancestor can only be the one at the distance given by the depths. */
  lemma DescendsAt(c: MonoClass, p: MonoClass)
    requires Rooted(c) && Rooted(p)
    ensures Descends(c, p) <==> p.depth <= c.depth && Ancestor(c, c.depth - p.depth) == p
  {
    if Descends(c, p) {
      var n :| Ancestor(c, n) == p;
      AncestorDepth(c, n);
    }
  }

  /** `mono_class_has_parent_fast`, for classes whose tables have been set up. */
  function HasParentFast(c: MonoClass, p: MonoClass): (answer: bool)
    requires Rooted(c) && Rooted(p) && c.TableCorrect() && p.TableCorrect()
    requires c.supertypes != null && p.supertypes != null
    reads c, p, c.supertypes, p.supertypes
    ensures answer <==> Descends(c, p)
  {
    DescendsAt(c, p);
    c.idepth >= p.idepth && c.supertypes[p.idepth - 1] == p
  }

  /** A set of classes that contains all parents of its members. */
  ghost predicate Hierarchy(classes: set<MonoClass>)
    reads classes, set c | c in classes && c.supertypes != null :: c.supertypes
  {
    forall c :: c in classes ==>
      Rooted(c) && c.TableCorrect() && (c.parent != null ==> c.parent in classes)
  }

  /** Tables already there are kept, as objects and in their contents. */
  twostate predicate TablesKept(classes: set<MonoClass>)
    reads classes, set c | c in classes && c.supertypes != null :: c.supertypes
  {
    forall c :: c in classes && old(c.supertypes) != null ==>
      && c.supertypes == old(c.supertypes) && c.idepth == old(c.idepth)
      && c.supertypes[..] == old(c.supertypes[..])
  }

  /** The class and its ancestors below the first one that has a table. */
  ghost function WithoutTable(c: MonoClass?, classes: set<MonoClass>): set<MonoClass>
    requires Hierarchy(classes) && (c != null ==> c in classes)
    reads classes, set c | c in classes && c.supertypes != null :: c.supertypes
    decreases if c == null then 0 else c.depth
  {
    if c == null || c.supertypes != null then {} else {c} + WithoutTable(c.parent, classes)
  }

  const MONO_DEFAULT_SUPERTABLE_SIZE := 6

  /**
    `mono_class_setup_supertypes` is only declared in the header. This is a version that meets the contract the test
    relies on: it fills in the table of the class, after that of its parent, and keeps tables that are there. The
    classes that get a table are the class and its ancestors, up to the first one that has one already.
   */
  method SetupSupertypes(c: MonoClass, ghost classes: set<MonoClass>)
    requires Hierarchy(classes) && c in classes
    modifies classes`supertypes, classes`idepth
    ensures Hierarchy(classes) && TablesKept(classes) && c.supertypes != null
    ensures forall k :: k in classes ==>
      (k.supertypes != null <==> old(k.supertypes) != null || k in old(WithoutTable(c, classes)))
    ensures forall k :: k in classes && k.depth > c.depth ==> k.supertypes == old(k.supertypes)
    decreases c.depth
  {
    hide Ancestor, Descends;
    if c.supertypes != null {
      return;
    }
    if c.parent != null {
      SetupSupertypes(c.parent, classes);
    }
    var table, n := BuildTable(c);
    Install(c, table, n, classes);
  }

  method BuildTable(c: MonoClass) returns (table: array<MonoClass?>, n: nat)
    requires Rooted(c) && (c.parent != null ==> c.parent.supertypes != null && c.parent.TableCorrect())
    ensures fresh(table) && n == c.depth <= table.Length
    ensures forall d :: 0 <= d < n ==> table[d] == Ancestor(c, n - 1 - d)
  {
    n := if c.parent == null then 1 else c.parent.idepth + 1;
    table := new MonoClass?[if n < MONO_DEFAULT_SUPERTABLE_SIZE then MONO_DEFAULT_SUPERTABLE_SIZE else n](_ => null);
    if c.parent != null {
      forall d | 0 <= d < n - 1 {
        table[d] := c.parent.supertypes[d];
      }
      assert forall m: nat :: Ancestor(c.parent, m) == Ancestor(c, m + 1);
    }
    table[n - 1] := c;
  }

  method Install(c: MonoClass, table: array<MonoClass?>, n: nat, ghost classes: set<MonoClass>)
    requires Hierarchy(classes) && c in classes && c.supertypes == null && n == c.depth <= table.Length
    requires forall d :: 0 <= d < n ==> table[d] == Ancestor(c, n - 1 - d)
    modifies c`supertypes, c`idepth
    ensures Hierarchy(classes) && c.supertypes == table
    ensures c.idepth == n
  {
    hide Rooted, Ancestor;
    c.idepth := n;
    c.supertypes := table;
    forall k | k in classes ensures k.TableCorrect() {
      if k != c {
        assert old(k.TableCorrect());
      }
    }
  }

  /** `mono_class_has_parent`: missing tables are set up first. */
  method HasParent(c: MonoClass, p: MonoClass, ghost classes: set<MonoClass>) returns (answer: bool)
    requires Hierarchy(classes) && c in classes && p in classes
    modifies classes`supertypes, classes`idepth
    ensures answer <==> Descends(c, p)
    ensures Hierarchy(classes) && TablesKept(classes)
  {
    if c.supertypes == null {
      SetupSupertypes(c, classes);
    }
    if p.supertypes == null {
      SetupSupertypes(p, classes);
    }
    answer := HasParentFast(c, p);
  }
}
