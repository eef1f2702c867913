/**
  The symbol rewriting of tools/replace-nid-symbols-sce.py: within one library's section of a stub file, entries with
  the default name of their NID are renamed to the symbol found for it, and found symbols that are missing are added.
 */
module NidSymbols {
  import opened DefaultNames
  import opened Options
  import opened OrderedDict

  type Section = Dict<string, nat>   // symbol to NID, as declared in the stub file
  type Findings = Dict<nat, string>  // NID to symbol, as found for one library

  // ----- replace_entries

  /** A default name whose NID has been found. */
  predicate Renames(name: string, library: string, f: Findings) {
    var nid := DefaultNid(name, library);
    nid.Some? && HasKey(f, nid.value)
  }

  function NewName(name: string, library: string, f: Findings): string {
    if Renames(name, library, f) then Get(f, DefaultNid(name, library).value) else name
  }

  /** The pairs assigned by the loop. */
  function Renamed(was: Section, library: string, f: Findings): (es: seq<(string, nat)>)
    ensures |es| == |was|
  {
    seq(|was|, i requires 0 <= i < |was| => (NewName(was[i].0, library, f), was[i].1))
  }

  function CountRenamed(was: Section, library: string, f: Findings): nat {
    if was == [] then 0
    else CountRenamed(was[..|was| - 1], library, f) + if Renames(was[|was| - 1].0, library, f) then 1 else 0
  }

  function Replaced(was: Section, library: string, f: Findings): Section {
    PutAll([], Renamed(was, library, f))
  }

  /** The entry has the default name of a found NID. */
  ghost predicate ToRename(name: string, library: string, f: Findings) {
    exists j :: 0 <= j < |f| && IsDefaultName(name, library, f[j].0)
  }

  /** The default name of a found NID gives way to the symbol found for it; all other names stay, and so do all NIDs. */
  ghost predicate RenamedProperly(was: Section, library: string, f: Findings, es: seq<(string, nat)>) {
    && |es| == |was|
    && (forall i :: 0 <= i < |was| ==> es[i].1 == was[i].1)
    && (forall i, j :: 0 <= i < |was| && 0 <= j < |f| && IsDefaultName(was[i].0, library, f[j].0) ==>
          es[i].0 == f[j].1)
    && (forall i :: 0 <= i < |was| && !ToRename(was[i].0, library, f) ==> es[i].0 == was[i].0)
  }

  lemma RenamesIs(name: string, library: string, f: Findings)
    ensures Renames(name, library, f) <==> ToRename(name, library, f)
  {
    hide DefaultNid, IsDefaultName;
    var nid := DefaultNid(name, library);
    if nid.Some? {
      HasKeyIs(f, nid.value);
      DefaultNidExactly(name, library, nid.value);
    }
    forall j | 0 <= j < |f| && IsDefaultName(name, library, f[j].0) ensures nid == Some(f[j].0) {
      DefaultNidExactly(name, library, f[j].0);
    }
  }

  lemma NewNameIs(name: string, library: string, f: Findings, j: nat)
    requires KeysDistinct(f) && j < |f| && IsDefaultName(name, library, f[j].0)
    ensures NewName(name, library, f) == f[j].1
  {
    DefaultNidExactly(name, library, f[j].0);
    hide DefaultNid, IsDefaultName;
    FindKey(f, j);
  }

  /** The loop assigns exactly the properly renamed entries. */
  lemma RenamingExactly(was: Section, library: string, f: Findings, es: seq<(string, nat)>)
    requires KeysDistinct(f)
    ensures es == Renamed(was, library, f) <==> RenamedProperly(was, library, f, es)
  {
    hide DefaultNid, IsDefaultName, ToRename, Renames, NewName;
    var rs := Renamed(was, library, f);
    forall i, j | 0 <= i < |was| && 0 <= j < |f| && IsDefaultName(was[i].0, library, f[j].0)
      ensures rs[i].0 == f[j].1
    {
      NewNameIs(was[i].0, library, f, j);
    }
    forall i | 0 <= i < |was| && !ToRename(was[i].0, library, f) ensures rs[i].0 == was[i].0 {
      NotRenamed(was[i].0, library, f);
    }
    if RenamedProperly(was, library, f, es) {
      forall i | 0 <= i < |was| ensures es[i].0 == rs[i].0 {
        if ToRename(was[i].0, library, f) {
          var j := FoundAt(was[i].0, library, f);
        }
      }
      assert forall i :: 0 <= i < |was| ==> es[i] == (es[i].0, es[i].1) == rs[i];
    }
  }

  lemma NotRenamed(name: string, library: string, f: Findings)
    requires !ToRename(name, library, f)
    ensures NewName(name, library, f) == name
  {
    RenamesIs(name, library, f);
  }

  lemma FoundAt(name: string, library: string, f: Findings) returns (j: nat)
    requires ToRename(name, library, f)
    ensures j < |f| && IsDefaultName(name, library, f[j].0)
  {
    j :| 0 <= j < |f| && IsDefaultName(name, library, f[j].0);
  }

  /** The entries that are counted. */
  ghost function ToRenameAt(was: Section, library: string, f: Findings): set<int> {
    set i | 0 <= i < |was| && ToRename(was[i].0, library, f)
  }

  lemma {:induction false} CountRenamedExactly(was: Section, library: string, f: Findings)
    ensures CountRenamed(was, library, f) == |ToRenameAt(was, library, f)|
    decreases |was|
  {
    hide ToRename, Renames;
    if was != [] {
      var n := |was| - 1;
      CountRenamedExactly(was[..n], library, f);
      RenamesIs(was[n].0, library, f);
      var low := ToRenameAt(was[..n], library, f);
      assert ToRenameAt(was, library, f) == low + if ToRename(was[n].0, library, f) then {n} else {};
    } else {
      assert ToRenameAt(was, library, f) == {};
    }
  }

  /** Afterwards a default name of a found NID is only left where it is itself a found symbol. */
  lemma NoneLeft(was: Section, library: string, f: Findings, i: nat)
    requires i < |Replaced(was, library, f)| && ToRename(Replaced(was, library, f)[i].0, library, f)
    ensures exists j :: 0 <= j < |f| && f[j].1 == Replaced(was, library, f)[i].0
  {
    hide DefaultNid, ToRename, Renames;
    var es, e := Renamed(was, library, f), Replaced(was, library, f)[i];
    PutAllPairs(es, e);
    var k :| IsLast(es, k) && es[k] == e;
    RenamesIs(e.0, library, f);
    RenamesIs(was[k].0, library, f);
    assert Renames(was[k].0, library, f);
    FoundSymbol(was[k].0, library, f);
  }

  lemma FoundSymbol(name: string, library: string, f: Findings)
    requires Renames(name, library, f)
    ensures exists j :: 0 <= j < |f| && f[j].1 == NewName(name, library, f)
  {
    assert f[Find(f, DefaultNid(name, library).value)].1 == NewName(name, library, f);
  }

  // ----- add_missing_entries

  predicate Declares(d: Section, nid: nat) {
    exists i :: 0 <= i < |d| && d[i].1 == nid
  }

  /** The loop, whose test sees the entries added by earlier iterations. */
  function Added(d: Section, f: Findings): (Section, nat)
    decreases |f|
  {
    if f == [] then (d, 0)
    else if Declares(d, f[0].0) then Added(d, f[1..])
    else
      var (d', n) := Added(Put(d, f[0].1, f[0].0), f[1..]);
      (d', n + 1)
  }

  /** The entries for the found NIDs that are not declared. */
  function Missing(d: Section, f: Findings): seq<(string, nat)>
    decreases |f|
  {
    if f == [] then []
    else (if Declares(d, f[0].0) then [] else [(f[0].1, f[0].0)]) + Missing(d, f[1..])
  }

  ghost function FoundNids(f: Findings): set<nat> {
    set i | 0 <= i < |f| :: f[i].0
  }

  /** Both passes, and their counts. */
  function Sync(was: Section, library: string, f: Findings): (Section, nat, nat) {
    var (d, n) := Added(Replaced(was, library, f), f);
    (d, CountRenamed(was, library, f), n)
  }

  // ----- When the passes do what they are for, exactly

  /** Renaming happens in place, losing no entry, exactly when no two entries get the same name. */
  lemma ReplacedExactly(was: Section, library: string, f: Findings)
    ensures Replaced(was, library, f) == Renamed(was, library, f) <==> KeysDistinct(Renamed(was, library, f))
  {
    var empty: Section := [];
    PutAllExact(empty, Renamed(was, library, f));
    assert empty + Renamed(was, library, f) == Renamed(was, library, f);
  }

  /** No declared NID is lost by renaming exactly when each stands in an entry whose new name no later entry gets. */
  lemma NidsKeptExactly(was: Section, library: string, f: Findings)
    ensures Values(Replaced(was, library, f)) == Values(was) <==>
      forall i :: 0 <= i < |was| ==> Carried(Renamed(was, library, f), was[i].1)
  {
    ValuesKeptExactly(Renamed(was, library, f));
    SameValues(Renamed(was, library, f), was);
  }

  /** For NIDs declared once each, that is when no two entries get the same name. */
  lemma NidsKeptOnce(was: Section, library: string, f: Findings)
    requires forall i, j :: 0 <= i < j < |was| ==> was[i].1 != was[j].1
    ensures Values(Replaced(was, library, f)) == Values(was) <==> KeysDistinct(Renamed(was, library, f))
  {
    ValuesKeptOnce(Renamed(was, library, f));
    SameValues(Renamed(was, library, f), was);
  }

  lemma SameValues<K, V>(d: seq<(K, V)>, e: seq<(K, V)>)
    requires |d| == |e| && forall i :: 0 <= i < |d| ==> d[i].1 == e[i].1
    ensures Values(d) == Values(e)
  {
  }

  lemma {:induction false} AddedDistinct(d: Section, f: Findings)
    requires KeysDistinct(d)
    ensures KeysDistinct(Added(d, f).0)
    decreases |f|
  {
    if f != [] && !Declares(d, f[0].0) {
      PutDistinct(d, f[0].1, f[0].0);
      AddedDistinct(Put(d, f[0].1, f[0].0), f[1..]);
    } else if f != [] {
      AddedDistinct(d, f[1..]);
    }
  }

  lemma {:induction false} MissingAfter(d: Section, f: Findings, e: (string, nat))
    requires e.1 !in FoundNids(f)
    ensures Missing(d + [e], f) == Missing(d, f)
    decreases |f|
  {
    if f != [] {
      var nid := f[0].0;
      FoundHead(f);
      MissingAfter(d, f[1..], e);
      var all := d + [e];
      if Declares(d, nid) {
        var i :| 0 <= i < |d| && d[i].1 == nid;
        assert all[i].1 == nid;
      } else {
        assert forall i :: 0 <= i < |all| ==> all[i].1 != nid;
      }
    }
  }

  lemma {:induction false} AddedAppends(d: Section, f: Findings)
    requires KeysDistinct(f) && KeysDistinct(d + Missing(d, f))
    ensures Added(d, f).0 == d + Missing(d, f) && Added(d, f).1 == |Missing(d, f)|
    decreases |f|
  {
    if f == [] {
    } else if Declares(d, f[0].0) {
      assert Missing(d, f) == Missing(d, f[1..]);
      AddedAppends(d, f[1..]);
    } else {
      var e := (f[0].1, f[0].0);
      var rest := f[1..];
      var all := d + Missing(d, f);
      assert all[|d|] == e;
      assert forall i :: 0 <= i < |d| ==> all[i] == d[i];
      assert Put(d, e.0, e.1) == d + [e];
      assert e.1 !in FoundNids(rest);
      MissingAfter(d, rest, e);
      assert d + [e] + Missing(d, rest) == all;
      AddedAppends(d + [e], rest);
    }
  }

  /** The missing entries are appended, and nothing else changes, exactly when none of their symbols is taken. */
  lemma AddedExactly(d: Section, f: Findings)
    requires KeysDistinct(d) && KeysDistinct(f)
    ensures Added(d, f).0 == d + Missing(d, f) <==> KeysDistinct(d + Missing(d, f))
  {
    AddedDistinct(d, f);
    if KeysDistinct(d + Missing(d, f)) {
      AddedAppends(d, f);
    }
  }

  // ----- When every declared and every found NID is declared afterwards

  /** Renaming loses no NID that is not found anyway. */
  ghost predicate RenamingKeeps(was: Section, library: string, f: Findings) {
    forall i :: 0 <= i < |was| ==> was[i].1 in FoundNids(f) || Carried(Renamed(was, library, f), was[i].1)
  }

  /**
    Adding loses no wanted NID: when the symbol of an entry to be added is taken, the NID it stood for is declared
    under another name as well, or is among the findings still to come.
   */
  ghost predicate AddingKeeps(d: Section, f: Findings, wanted: set<nat>)
    decreases |f|
  {
    if f == [] then true
    else if Declares(d, f[0].0) then AddingKeeps(d, f[1..], wanted)
    else
      var d' := Put(d, f[0].1, f[0].0);
      && (HasKey(d, f[0].1) && Get(d, f[0].1) in wanted ==>
            Declares(d', Get(d, f[0].1)) || Get(d, f[0].1) in FoundNids(f[1..]))
      && AddingKeeps(d', f[1..], wanted)
  }

  lemma PutValues(d: Section, k: string, v: nat)
    ensures v in Values(Put(d, k, v)) && Values(Put(d, k, v)) <= Values(d) + {v}
    ensures if HasKey(d, k) then Values(d) <= Values(Put(d, k, v)) + {Get(d, k)} else Values(d) <= Values(Put(d, k, v))
  {
    var i := Find(d, k);
    var d' := Put(d, k, v);
    assert d'[i].1 == v;
    forall j | 0 <= j < |d| && j != i ensures d[j].1 in Values(d') { assert d'[j] == d[j]; }
    forall j | 0 <= j < |d'| && j != i ensures d'[j].1 in Values(d) { assert d'[j] == d[j]; }
  }

  lemma {:induction false} AddedWithin(d: Section, f: Findings)
    ensures Values(Added(d, f).0) <= Values(d) + FoundNids(f)
    decreases |f|
  {
    if f != [] {
      FoundHead(f);
      if Declares(d, f[0].0) {
        AddedWithin(d, f[1..]);
      } else {
        PutValues(d, f[0].1, f[0].0);
        AddedWithin(Put(d, f[0].1, f[0].0), f[1..]);
      }
    }
  }

  lemma DeclaresIs(d: Section, nid: nat)
    ensures Declares(d, nid) <==> nid in Values(d)
  {
  }

  /** The wanted NIDs are all declared after the second pass exactly when it loses none of them on the way. */
  lemma {:induction false} AddedKeeps(d: Section, f: Findings, wanted: set<nat>)
    requires wanted <= Values(d) + FoundNids(f)
    ensures wanted <= Values(Added(d, f).0) <==> AddingKeeps(d, f, wanted)
    decreases |f|
  {
    hide Declares, HasKey, Put, Get, Values, FoundNids;
    if f == [] {
      assert FoundNids(f) == {} by { NothingFound(); }
    } else {
      var nid, sym, rest := f[0].0, f[0].1, f[1..];
      FoundHead(f);
      DeclaresIs(d, nid);
      if Declares(d, nid) {
        AddedKeeps(d, rest, wanted);
      } else {
        var d' := Put(d, sym, nid);
        PutValues(d, sym, nid);
        if wanted <= Values(d') + FoundNids(rest) {
          AddedKeeps(d', rest, wanted);
          if HasKey(d, sym) { DeclaresIs(d', Get(d, sym)); }
        } else {
          AddedWithin(d', rest);
          assert HasKey(d, sym);
          DeclaresIs(d', Get(d, sym));
        }
      }
    }
  }

  lemma NothingFound()
    ensures FoundNids([]) == {}
  {
  }

  /**
    For every input: the declared NIDs afterwards are the old ones and all found ones exactly when neither pass loses
    one.
   */
  lemma CoversExactly(was: Section, library: string, f: Findings)
    ensures Values(Sync(was, library, f).0) == Values(was) + FoundNids(f) <==>
      && RenamingKeeps(was, library, f)
      && AddingKeeps(Replaced(was, library, f), f, Values(was) + FoundNids(f))
  {
    hide Added, Replaced, Carried, AddingKeeps, Values, FoundNids;
    var d, wanted := Replaced(was, library, f), Values(was) + FoundNids(f);
    AddedWithin(d, f);
    RenamingWithin(was, library, f);
    if RenamingKeeps(was, library, f) {
      AddedKeeps(d, f, wanted);
    }
  }

  /** What the renaming pass contributes. */
  lemma RenamingWithin(was: Section, library: string, f: Findings)
    ensures Values(Replaced(was, library, f)) <= Values(was)
    ensures RenamingKeeps(was, library, f) <==>
      Values(was) <= Values(Replaced(was, library, f)) + FoundNids(f)
  {
    hide Carried, PutAll, FoundNids;
    var es := Renamed(was, library, f);
    ValuesKeptExactly(es);
    SameValues(es, was);
    forall i | 0 <= i < |was|
      ensures was[i].1 in Values(was)
      ensures was[i].1 in Values(Replaced(was, library, f)) <==> Carried(es, was[i].1)
    {
      PutAllValues(es, was[i].1);
    }
  }

  // ----- Conditions on the input under which that holds

  /** Default names carry their own NID. */
  ghost predicate OwnNids(was: Section, library: string) {
    forall i :: 0 <= i < |was| ==>
      var nid := DefaultNid(was[i].0, library);
      nid.Some? ==> was[i].1 == nid.value
  }

  /** No two NIDs were found under the same symbol. */
  ghost predicate SymbolsDistinct(f: Findings) {
    forall i, j :: 0 <= i < j < |f| ==> f[i].1 != f[j].1
  }

  /** No entry uses a found symbol for a NID other than the one it was found for. */
  ghost predicate NoForeignUse(d: Section, f: Findings) {
    forall i, j :: 0 <= i < |d| && 0 <= j < |f| && d[i].0 == f[j].1 ==> d[i].1 == f[j].0
  }

  ghost predicate Sound(was: Section, library: string, f: Findings) {
    && KeysDistinct(was) && KeysDistinct(f)
    && OwnNids(was, library) && SymbolsDistinct(f) && NoForeignUse(was, f)
  }

  lemma RenamedSound(was: Section, library: string, f: Findings)
    requires Sound(was, library, f)
    ensures Agree(Renamed(was, library, f)) && NoForeignUse(Renamed(was, library, f), f)
  {
    var es := Renamed(was, library, f);
    forall i, j | 0 <= i < |es| && 0 <= j < |f| && es[i].0 == f[j].1 ensures es[i].1 == f[j].0 {
      RenamedEntry(was, library, f, i, j);
    }
    forall i, j | 0 <= i < j < |es| && es[i].0 == es[j].0 ensures es[i].1 == es[j].1 {
      if Renames(was[i].0, library, f) {
        RenamedEntry(was, library, f, i, Find(f, DefaultNid(was[i].0, library).value));
        RenamedEntry(was, library, f, j, Find(f, DefaultNid(was[i].0, library).value));
      } else if Renames(was[j].0, library, f) {
        RenamedEntry(was, library, f, i, Find(f, DefaultNid(was[j].0, library).value));
        RenamedEntry(was, library, f, j, Find(f, DefaultNid(was[j].0, library).value));
      }
    }
  }

  /** An entry that ends up with the symbol found for a NID declares that NID. */
  lemma RenamedEntry(was: Section, library: string, f: Findings, i: nat, j: nat)
    requires Sound(was, library, f) && i < |was| && j < |f|
    requires NewName(was[i].0, library, f) == f[j].1
    ensures was[i].1 == f[j].0
  {
    if Renames(was[i].0, library, f) {
      var k := Find(f, DefaultNid(was[i].0, library).value);
      assert f[k].1 == f[j].1;
      assert k == j;
    }
  }

  /** After renaming, the same NIDs are declared, and found symbols still stand for their own NIDs. */
  lemma ReplacedSound(was: Section, library: string, f: Findings)
    requires Sound(was, library, f)
    ensures Values(Replaced(was, library, f)) == Values(was) && RenamingKeeps(was, library, f)
    ensures KeysDistinct(Replaced(was, library, f)) && NoForeignUse(Replaced(was, library, f), f)
  {
    hide Carried, PutAll, OwnNids;
    var es := Renamed(was, library, f);
    var empty: Section := [];
    RenamedSound(was, library, f);
    AgreeingValues(es);
    assert forall i :: 0 <= i < |was| ==> es[i].1 == was[i].1 && Carried(es, was[i].1);
    NidsKeptExactly(was, library, f);
    PutAllDistinct(empty, es);
    forall i | 0 <= i < |Replaced(was, library, f)| ensures Replaced(was, library, f)[i] in es {
      PutAllPairs(es, Replaced(was, library, f)[i]);
    }
  }

  lemma {:induction false} SoundAdding(d: Section, f: Findings, wanted: set<nat>)
    requires KeysDistinct(f) && SymbolsDistinct(f) && NoForeignUse(d, f)
    ensures AddingKeeps(d, f, wanted)
    decreases |f|
  {
    if f != [] {
      if Declares(d, f[0].0) {
        SoundAdding(d, f[1..], wanted);
      } else {
        FreeSymbol(d, f);
        SoundAdding(d + [(f[0].1, f[0].0)], f[1..], wanted);
      }
    }
  }

  /** The symbol of a found NID that is not declared is free, and adding it takes no other found symbol. */
  lemma FreeSymbol(d: Section, f: Findings)
    requires f != [] && KeysDistinct(f) && SymbolsDistinct(f) && NoForeignUse(d, f) && !Declares(d, f[0].0)
    ensures !HasKey(d, f[0].1) && NoForeignUse(d + [(f[0].1, f[0].0)], f[1..])
  {
    HasKeyIs(d, f[0].1);
    assert forall i :: 0 <= i < |d| ==> d[i].1 != f[0].0;
  }

  /** The found pair at `j`, as an entry, is missing from `d`. */
  ghost predicate MissingAt(d: Section, f: Findings, e: (string, nat), j: int) {
    0 <= j < |f| && e == (f[j].1, f[j].0) && !Declares(d, e.1)
  }

  lemma {:induction false} MissingIs(d: Section, f: Findings, e: (string, nat))
    ensures e in Missing(d, f) <==> exists j :: MissingAt(d, f, e, j)
    decreases |f|
  {
    if f != [] {
      MissingIs(d, f[1..], e);
      if e in Missing(d, f) {
        if e in Missing(d, f[1..]) {
          var j :| MissingAt(d, f[1..], e, j);
          assert MissingAt(d, f, e, j + 1);
        } else {
          assert MissingAt(d, f, e, 0);
        }
      }
      if j :| MissingAt(d, f, e, j) && j > 0 {
        assert MissingAt(d, f[1..], e, j - 1);
      }
    }
  }

  lemma {:induction false} MissingDistinct(d: Section, f: Findings)
    requires SymbolsDistinct(f)
    ensures KeysDistinct(Missing(d, f))
    decreases |f|
  {
    if f != [] {
      var rest := Missing(d, f[1..]);
      MissingDistinct(d, f[1..]);
      forall i | 0 <= i < |rest| ensures rest[i].0 != f[0].1 {
        assert rest[i] in rest;
        MissingIs(d, f[1..], rest[i]);
        var j :| MissingAt(d, f[1..], rest[i], j);
        assert f[1..][j] == f[j + 1];
      }
    }
  }

  /** No missing entry's symbol is taken. */
  lemma MissingFits(d: Section, f: Findings)
    requires KeysDistinct(d) && SymbolsDistinct(f) && NoForeignUse(d, f)
    ensures KeysDistinct(d + Missing(d, f))
  {
    var m := Missing(d, f);
    MissingDistinct(d, f);
    forall i, j | 0 <= i < |d| && 0 <= j < |m| ensures d[i].0 != m[j].0 {
      assert m[j] in m;
      MissingIs(d, f, m[j]);
      var k :| MissingAt(d, f, m[j], k);
    }
    var all := d + m;
    forall i, j | 0 <= i < j < |all| ensures all[i].0 != all[j].0 {
      if i < |d| <= j { assert all[i] == d[i] && all[j] == m[j - |d|]; }
    }
  }

  /** After both passes the declared NIDs are the old ones and all the found ones. */
  lemma SyncCovers(was: Section, library: string, f: Findings)
    requires Sound(was, library, f)
    ensures Values(Sync(was, library, f).0) == Values(was) + FoundNids(f)
    ensures KeysDistinct(Sync(was, library, f).0)
    ensures Sync(was, library, f).0 ==
      Replaced(was, library, f) + Missing(Replaced(was, library, f), f)
  {
    var d := Replaced(was, library, f);
    ReplacedSound(was, library, f);
    MissingFits(d, f);
    AddedAppends(d, f);
    SoundAdding(d, f, Values(was) + FoundNids(f));
    CoversExactly(was, library, f);
  }

  /**
    Each of the three conditions is needed: without it, a NID that was declared or found can end up undeclared. Nor do
    they say all: the last section breaks one of them and loses nothing, because the NID is added again.
   */
  lemma ConditionsNeeded()
    ensures var was, f := [("b", 1)], [(1, "a"), (2, "b")];
      OwnNids(was, "L") && SymbolsDistinct(f) && Sync(was, "L", f).0 == [("b", 2)]
    ensures var was: Section, f := [], [(1, "a"), (2, "a")];
      OwnNids(was, "L") && NoForeignUse(was, f) && Sync(was, "L", f).0 == [("a", 2)]
    ensures var was, f := [("L_1", 5)], [(1, "a")];
      NoForeignUse(was, f) && SymbolsDistinct(f) && Sync(was, "L", f).0 == [("a", 1)]
    ensures var was, f := [("b", 1)], [(2, "b"), (1, "a")];
      !NoForeignUse(was, f) && Sync(was, "L", f).0 == [("b", 2), ("a", 1)]
  {
    ForeignUse();
    SharedSymbol();
    ForeignNid();
    AddedAgain();
  }

  lemma NothingToReplaceInB(f: Findings)
    ensures Replaced([("b", 1)], "L", f) == [("b", 1)]
  {
    var was: Section := [("b", 1)];
    assert DefaultNid("b", "L").None?;
    assert Renamed(was, "L", f) == was;
    ReplacedExactly(was, "L", f);
  }

  lemma ForeignUse()
    ensures var was, f := [("b", 1)], [(1, "a"), (2, "b")];
      OwnNids(was, "L") && SymbolsDistinct(f) && Sync(was, "L", f).0 == [("b", 2)]
  {
    var was: Section, f: Findings := [("b", 1)], [(1, "a"), (2, "b")];
    hide DefaultNid, Replaced;
    NothingToReplaceInB(f);
    assert was[0].1 == 1 && Declares(was, 1);
    assert !Declares(was, 2);
    assert f[1..] == [(2, "b")];
    assert Put(was, "b", 2) == [("b", 2)];
  }

  lemma SharedSymbol()
    ensures var was: Section, f := [], [(1, "a"), (2, "a")];
      OwnNids(was, "L") && NoForeignUse(was, f) && Sync(was, "L", f).0 == [("a", 2)]
  {
    var was: Section, f: Findings := [], [(1, "a"), (2, "a")];
    assert Renamed(was, "L", f) == was;
    assert f[1..] == [(2, "a")];
    assert Put(was, "a", 1) == [("a", 1)] && !Declares([("a", 1)], 2);
    assert Put([("a", 1)], "a", 2) == [("a", 2)];
  }

  lemma ForeignNid()
    ensures var was, f := [("L_1", 5)], [(1, "a")];
      NoForeignUse(was, f) && SymbolsDistinct(f) && Sync(was, "L", f).0 == [("a", 1)]
  {
    var was: Section, f: Findings := [("L_1", 5)], [(1, "a")];
    DefaultNameL1();
    hide DefaultNid;
    assert Renamed(was, "L", f) == [("a", 5)];
    var empty: Section := [];
    assert Put(empty, "a", 5) == [("a", 5)];
    assert Replaced(was, "L", f) == [("a", 5)];
    assert !Declares([("a", 5)], 1);
    assert Put([("a", 5)], "a", 1) == [("a", 1)];
  }

  lemma AddedAgain()
    ensures var was, f := [("b", 1)], [(2, "b"), (1, "a")];
      !NoForeignUse(was, f) && Sync(was, "L", f).0 == [("b", 2), ("a", 1)]
  {
    var was: Section, f: Findings := [("b", 1)], [(2, "b"), (1, "a")];
    hide DefaultNid, Replaced;
    NothingToReplaceInB(f);
    assert was[0].0 == f[0].1 && !Declares(was, 2);
    assert f[1..] == [(1, "a")];
    assert Put(was, "b", 2) == [("b", 2)] && !Declares([("b", 2)], 1);
    assert Put([("b", 2)], "a", 1) == [("b", 2), ("a", 1)];
  }

  /** The entries are some of the found ones, in the order in which their NIDs were found. */
  ghost predicate InOrder(m: seq<(string, nat)>, f: Findings) {
    && (forall i :: 0 <= i < |m| ==> HasKey(f, m[i].1) && Get(f, m[i].1) == m[i].0)
    && (forall i, j :: 0 <= i < j < |m| ==> Find(f, m[i].1) < Find(f, m[j].1))
  }

  lemma {:induction false} MissingOrder(d: Section, f: Findings)
    requires KeysDistinct(f)
    ensures InOrder(Missing(d, f), f)
    decreases |f|
  {
    if f != [] {
      MissingOrder(d, f[1..]);
      InOrderCons(Missing(d, f[1..]), f);
    }
  }

  lemma InOrderCons(m: seq<(string, nat)>, f: Findings)
    requires f != [] && KeysDistinct(f) && InOrder(m, f[1..])
    ensures InOrder(m, f) && InOrder([(f[0].1, f[0].0)] + m, f)
  {
    var rest := f[1..];
    forall i | 0 <= i < |m| ensures Find(f, m[i].1) == 1 + Find(rest, m[i].1) && HasKey(f, m[i].1) {
      assert rest[Find(rest, m[i].1)].0 == m[i].1;
      assert f[0].0 != m[i].1;
    }
  }

  /** One more iteration of the loop, on what the earlier ones have made of the section. */
  lemma {:induction false} AddedSnoc(d: Section, f: Findings, nid: nat, symbol: string)
    ensures var (d', n) := Added(d, f);
      Added(d, f + [(nid, symbol)]) ==
        if nid in Values(d') then (d', n) else (Put(d', symbol, nid), n + 1)
    decreases |f|
  {
    if f == [] {
      assert (f + [(nid, symbol)])[1..] == [];
      DeclaresIs(d, nid);
    } else {
      assert (f + [(nid, symbol)])[1..] == f[1..] + [(nid, symbol)];
      AddedSnoc(if Declares(d, f[0].0) then d else Put(d, f[0].1, f[0].0), f[1..], nid, symbol);
    }
  }

  // ----- Entries that are none of the passes' business

  ghost predicate IsSymbol(name: string, f: Findings) {
    exists j :: 0 <= j < |f| && f[j].1 == name
  }

  /** Neither a default name of a found NID nor a found symbol. */
  ghost function Other(library: string, f: Findings): string -> bool {
    name => !Renames(name, library, f) && !IsSymbol(name, f)
  }

  lemma {:induction false} AddedFilter(d: Section, f: Findings, p: string -> bool)
    requires forall j :: 0 <= j < |f| ==> !p(f[j].1)
    ensures Filter(Added(d, f).0, p) == Filter(d, p)
    decreases |f|
  {
    if f != [] {
      if Declares(d, f[0].0) {
        AddedFilter(d, f[1..], p);
      } else {
        FilterPut(d, f[0].1, f[0].0, p);
        AddedFilter(Put(d, f[0].1, f[0].0), f[1..], p);
      }
    }
  }

  lemma RenamedIsSymbol(name: string, library: string, f: Findings)
    ensures Renames(name, library, f) ==> IsSymbol(NewName(name, library, f), f)
  {
    if Renames(name, library, f) {
      assert f[Find(f, DefaultNid(name, library).value)].1 == NewName(name, library, f);
    }
  }

  lemma {:induction false} RenamedFilter(was: Section, library: string, f: Findings)
    ensures Filter(Renamed(was, library, f), Other(library, f)) == Filter(was, Other(library, f))
    decreases |was|
  {
    if was != [] {
      var n := |was| - 1;
      RenamedFilter(was[..n], library, f);
      assert Renamed(was, library, f)[..n] == Renamed(was[..n], library, f);
      RenamedIsSymbol(was[n].0, library, f);
    }
  }

  /** For every input, all other entries keep their names, NIDs and order. */
  lemma OthersUntouched(was: Section, library: string, f: Findings)
    requires KeysDistinct(was)
    ensures Filter(Sync(was, library, f).0, Other(library, f)) == Filter(was, Other(library, f))
  {
    hide Renames, IsSymbol, NewName;
    var p := Other(library, f);
    var es := Renamed(was, library, f);
    var empty: Section := [];
    OthersAssignedOnce(was, library, f);
    FilterPutAll(empty, es, p);
    RenamedFilter(was, library, f);
    forall j | 0 <= j < |f| ensures !p(f[j].1) {
      assert IsSymbol(f[j].1, f) by { FoundIsSymbol(f, j); }
    }
    AddedFilter(Replaced(was, library, f), f, p);
  }

  lemma FoundIsSymbol(f: Findings, j: nat)
    requires j < |f|
    ensures IsSymbol(f[j].1, f)
  {
  }

  lemma OthersAssignedOnce(was: Section, library: string, f: Findings)
    requires KeysDistinct(was)
    ensures OnceAndNew([], Renamed(was, library, f), Other(library, f))
  {
    hide IsSymbol;
    var es := Renamed(was, library, f);
    var p := Other(library, f);
    forall i, j | 0 <= i < j < |es| && p(es[j].0) ensures es[i].0 != es[j].0 {
      RenamedIsSymbol(was[i].0, library, f);
      RenamedIsSymbol(was[j].0, library, f);
    }
  }

  // ----- Running the update again

  lemma {:induction false} NothingRenamed(d: Section, library: string, f: Findings)
    ensures CountRenamed(d, library, f) == 0 <==> forall i :: 0 <= i < |d| ==> !Renames(d[i].0, library, f)
    decreases |d|
  {
    if d != [] {
      var n := |d| - 1;
      NothingRenamed(d[..n], library, f);
      assert forall i :: 0 <= i < n ==> d[..n][i] == d[i];
    }
  }

  lemma {:induction false} NothingAdded(d: Section, f: Findings)
    ensures Added(d, f).1 == 0 <==> FoundNids(f) <= Values(d)
    ensures FoundNids(f) <= Values(d) ==> Added(d, f).0 == d
    decreases |f|
  {
    if f != [] {
      FoundHead(f);
      assert Declares(d, f[0].0) <==> f[0].0 in Values(d);
      assert FoundNids(f) <= Values(d) <==> f[0].0 in Values(d) && FoundNids(f[1..]) <= Values(d);
      if Declares(d, f[0].0) {
        NothingAdded(d, f[1..]);
        assert Added(d, f) == Added(d, f[1..]);
      } else {
        assert Added(d, f).1 == Added(Put(d, f[0].1, f[0].0), f[1..]).1 + 1;
      }
    }
  }

  lemma FoundHead(f: Findings)
    requires f != []
    ensures FoundNids(f) == {f[0].0} + FoundNids(f[1..])
  {
    forall v | v in FoundNids(f) ensures v == f[0].0 || v in FoundNids(f[1..]) {
      var j :| 0 <= j < |f| && f[j].0 == v;
      if j > 0 { assert f[1..][j - 1].0 == v; }
    }
    assert f[0].0 in FoundNids(f);
    forall v | v in FoundNids(f[1..]) ensures v in FoundNids(f) {
      var j :| 0 <= j < |f[1..]| && f[1..][j].0 == v;
      assert f[j + 1].0 == v;
    }
  }

  ghost predicate NothingToRename(d: Section, library: string, f: Findings) {
    forall i :: 0 <= i < |d| ==> !Renames(d[i].0, library, f)
  }

  /** A section is left alone exactly when it declares every found NID and has no default name to rename. */
  lemma FixedPoint(d: Section, library: string, f: Findings)
    requires KeysDistinct(d)
    ensures Sync(d, library, f) == (d, 0, 0) <==> FoundNids(f) <= Values(d) && NothingToRename(d, library, f)
  {
    NothingRenamed(d, library, f);
    if NothingToRename(d, library, f) {
      assert Renamed(d, library, f) == d;
      ReplacedExactly(d, library, f);
      NothingAdded(d, f);
    }
  }

  /** The symbols under which the second pass adds entries. */
  ghost function AddedSymbols(d: Section, f: Findings): set<string>
    decreases |f|
  {
    if f == [] then {}
    else if Declares(d, f[0].0) then AddedSymbols(d, f[1..])
    else {f[0].1} + AddedSymbols(Put(d, f[0].1, f[0].0), f[1..])
  }

  lemma {:induction false} AddedKeys(d: Section, f: Findings, name: string)
    ensures HasKey(Added(d, f).0, name) <==> HasKey(d, name) || name in AddedSymbols(d, f)
    decreases |f|
  {
    hide HasKey, Put;
    if f != [] {
      if Declares(d, f[0].0) {
        AddedKeys(d, f[1..], name);
      } else {
        PutKeys(d, f[0].1, f[0].0, name);
        AddedKeys(Put(d, f[0].1, f[0].0), f[1..], name);
      }
    }
  }

  lemma SyncKeys(was: Section, library: string, f: Findings, name: string)
    ensures HasKey(Sync(was, library, f).0, name) <==>
      || (exists i :: 0 <= i < |was| && NewName(was[i].0, library, f) == name)
      || name in AddedSymbols(Replaced(was, library, f), f)
  {
    hide HasKey, NewName;
    var empty: Section := [];
    var es := Renamed(was, library, f);
    PutAllKeys(empty, es, name);
    assert !HasKey(empty, name) by { EmptyHasNoKey<string, nat>(name); }
    assert forall i :: 0 <= i < |was| ==> es[i].0 == NewName(was[i].0, library, f);
    AddedKeys(Replaced(was, library, f), f, name);
  }

  /** No name given by the first run, in either pass, is a default name to rename. */
  ghost predicate NewNamesStay(was: Section, library: string, f: Findings) {
    && (forall i :: 0 <= i < |was| ==> !Renames(NewName(was[i].0, library, f), library, f))
    && (forall s :: s in AddedSymbols(Replaced(was, library, f), f) ==> !Renames(s, library, f))
  }

  lemma NewNamesStayIs(was: Section, library: string, f: Findings)
    ensures NothingToRename(Sync(was, library, f).0, library, f) <==> NewNamesStay(was, library, f)
  {
    hide Renames, NewName, Sync, AddedSymbols, Replaced;
    var d := Sync(was, library, f).0;
    forall name ensures HasKey(d, name) <==> exists i :: 0 <= i < |d| && d[i].0 == name {
      HasKeyIs(d, name);
    }
    forall name ensures HasKey(d, name) <==>
      || (exists i :: 0 <= i < |was| && NewName(was[i].0, library, f) == name)
      || name in AddedSymbols(Replaced(was, library, f), f)
    {
      SyncKeys(was, library, f, name);
    }
    if NothingToRename(d, library, f) {
      forall name | HasKey(d, name) ensures !Renames(name, library, f) {
        var i :| 0 <= i < |d| && d[i].0 == name;
      }
      forall i | 0 <= i < |was| ensures !Renames(NewName(was[i].0, library, f), library, f) {
        assert HasKey(d, NewName(was[i].0, library, f));
      }
    } else {
      var i :| 0 <= i < |d| && Renames(d[i].0, library, f);
      assert HasKey(d, d[i].0);
    }
  }

  /**
    For every input: a second run changes nothing and counts nothing exactly when the first one lost no found NID and
    gave no name that is itself a default name to rename.
   */
  lemma SyncIdempotent(was: Section, library: string, f: Findings)
    ensures var d := Sync(was, library, f).0;
      Sync(d, library, f) == (d, 0, 0) <==>
        && AddingKeeps(Replaced(was, library, f), f, FoundNids(f))
        && NewNamesStay(was, library, f)
  {
    hide Added, AddingKeeps, FoundNids, NewNamesStay, NothingToRename;
    var empty: Section := [];
    var r := Replaced(was, library, f);
    PutAllDistinct(empty, Renamed(was, library, f));
    AddedDistinct(r, f);
    AddedKeeps(r, f, FoundNids(f));
    NewNamesStayIs(was, library, f);
    FixedPoint(Added(r, f).0, library, f);
  }

  /**
    Under the conditions on the input, that is when no renamed entry, and no found symbol whose NID was not declared,
    gets a default name to rename.
   */
  lemma SoundIdempotent(was: Section, library: string, f: Findings)
    requires Sound(was, library, f)
    ensures var d := Sync(was, library, f).0;
      Sync(d, library, f) == (d, 0, 0) <==>
        && (forall i :: 0 <= i < |was| ==> !Renames(NewName(was[i].0, library, f), library, f))
        && (forall j :: 0 <= j < |f| && f[j].0 !in Values(was) ==> !Renames(f[j].1, library, f))
  {
    hide Renames, NewName, AddingKeeps, AddedSymbols;
    var r := Replaced(was, library, f);
    ReplacedSound(was, library, f);
    SoundAdding(r, f, FoundNids(f));
    SyncIdempotent(was, library, f);
    forall s ensures s in AddedSymbols(r, f) <==> exists j :: AddedAt(r, f, s, j) {
      AddedSymbolsSound(r, f, s);
    }
    forall j | 0 <= j < |f| && f[j].0 !in Values(was) ensures AddedAt(r, f, f[j].1, j) {
      DeclaresIs(r, f[j].0);
    }
    forall s, j | AddedAt(r, f, s, j) ensures f[j].0 !in Values(was) {
      DeclaresIs(r, f[j].0);
    }
  }

  ghost predicate AddedAt(d: Section, f: Findings, s: string, j: int) {
    0 <= j < |f| && f[j].1 == s && !Declares(d, f[j].0)
  }

  lemma {:induction false} AddedSymbolsSound(d: Section, f: Findings, s: string)
    requires KeysDistinct(f) && SymbolsDistinct(f) && NoForeignUse(d, f)
    ensures s in AddedSymbols(d, f) <==> exists j :: AddedAt(d, f, s, j)
    decreases |f|
  {
    if f != [] {
      var rest := f[1..];
      var d' := if Declares(d, f[0].0) then d else d + [(f[0].1, f[0].0)];
      if !Declares(d, f[0].0) { FreeSymbol(d, f); }
      AddedSymbolsSound(d', rest, s);
      forall j | 0 <= j < |rest| ensures Declares(d', rest[j].0) <==> Declares(d, f[j + 1].0) {
        DeclaresMore(d, d', f, j);
      }
      if j :| AddedAt(d', rest, s, j) { assert AddedAt(d, f, s, j + 1); }
      if j :| AddedAt(d, f, s, j) && j > 0 { assert AddedAt(d', rest, s, j - 1); }
      assert AddedAt(d, f, f[0].1, 0) <==> !Declares(d, f[0].0);
    }
  }

  lemma DeclaresMore(d: Section, d': Section, f: Findings, j: nat)
    requires KeysDistinct(f) && j + 1 < |f| && (d' == d || d' == d + [(f[0].1, f[0].0)])
    ensures Declares(d', f[1..][j].0) <==> Declares(d, f[j + 1].0)
  {
    var nid := f[j + 1].0;
    if i :| 0 <= i < |d| && d[i].1 == nid { assert d'[i].1 == nid; }
  }

  /** A found symbol that is itself a default name is renamed, and counted, again in every run. */
  lemma SecondRunRenames()
    ensures var was: Section, f := [], [(1, "L_1")];
      var d := Sync(was, "L", f).0;
      Sound(was, "L", f) && d == [("L_1", 1)] && Sync(d, "L", f) == (d, 1, 0)
  {
    var was: Section, f: Findings, d: Section := [], [(1, "L_1")], [("L_1", 1)];
    assert Renamed(was, "L", f) == [];
    assert !Declares(was, 1) && Put(was, "L_1", 1) == d;
    SecondRun();
  }

  lemma SecondRun()
    ensures Sync([("L_1", 1)], "L", [(1, "L_1")]) == ([("L_1", 1)], 1, 0)
  {
    var f: Findings, d: Section := [(1, "L_1")], [("L_1", 1)];
    DefaultNameL1();
    assert Find(f, 1) == 0 && NewName("L_1", "L", f) == "L_1" && Renames("L_1", "L", f);
    hide DefaultNid, Renames, NewName, Replaced, Added, Find;
    assert Renamed(d, "L", f) == d;
    ReplacedExactly(d, "L", f);
    assert d[..0] == [] && CountRenamed(d, "L", f) == 1;
    assert d[0].1 == 1;
    NothingAdded(d, f);
  }

  lemma DefaultNameL1()
    ensures DefaultNid("L_1", "L") == Some(1)
  {
    assert Lowered("1") == "1" == Zeros(0) + HexString(1, LowerDigits);
    assert Denotes("1", 1);
    assert "L_1" == "L" + "_" + "1" + "";
    assert DefaultNameParts("L_1", "L", 1, "1", "");
    DefaultNidExactly("L_1", "L", 1);
  }
}
