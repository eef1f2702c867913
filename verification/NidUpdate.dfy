/**
  The functions of tools/replace-nid-symbols-sce.py that update dictionaries in place, and the sequence of calls made
  for one library.
 */
module NidUpdate {
  import opened DefaultNames
  import opened NidSymbols
  import opened Options
  import opened OrderedDict

  /** What `add_entry` fills: for each library, the symbols found by NID. */
  class Collected {
    var found: map<string, Findings>

    ghost predicate Valid()
      reads this
    {
      forall l :: l in found ==> KeysDistinct(found[l])
    }

    constructor ()
      ensures Valid() && found == map[]
    {
      found := map[];
    }

    /** `add_entry`: a NID found again takes the symbol found last. */
    method AddEntry(library: string, symbol: string, nid: nat)
      requires Valid()
      modifies this
      ensures Valid() && library in found
      ensures Assigned(if library in old(found) then old(found)[library] else [], nid, symbol, found[library])
      ensures found - {library} == old(found) - {library}
    {
      if library !in found {
        found := found[library := []];
      }
      var f := found[library];
      PutDistinct(f, nid, symbol);
      PutInPlace(f, nid, symbol, Put(f, nid, symbol));
      found := found[library := Put(f, nid, symbol)];
    }
  }

  /** A count, or the exception raised by the look-up of a library without findings. */
  datatype Outcome = Count(n: nat) | KeyError

  ghost predicate NoDefaultNames(d: Section, library: string) {
    forall i :: 0 <= i < |d| ==> DefaultNid(d[i].0, library).None?
  }

  /** A section of the stub file. */
  class Entries {
    var items: Section

    constructor (items: Section)
      ensures this.items == items
    {
      this.items := items;
    }

    /** The assignment `entries[name] = nid`. */
    method Assign(name: string, nid: nat)
      modifies this
      ensures items == Put(old(items), name, nid)
    {
      items := Put(items, name, nid);
    }

    /**
      `replace_entries`. The section is emptied and refilled, so the exception, raised at the first default name of a
      library without findings, leaves only the entries before it.
     */
    method ReplaceEntries(library: string, findings: map<string, Findings>) returns (changed: Outcome)
      requires KeysDistinct(items)
      modifies this
      ensures KeysDistinct(items)
      ensures library in findings ==>
        && changed == Count(CountRenamed(old(items), library, findings[library]))
        && items == Replaced(old(items), library, findings[library])
      ensures library in findings ==>
        && changed == Count(|ToRenameAt(old(items), library, findings[library])|)
        && (forall i :: 0 <= i < |items| && ToRename(items[i].0, library, findings[library]) ==>
              IsSymbol(items[i].0, findings[library]))
      ensures library in findings && KeysDistinct(findings[library]) ==>
        forall es: seq<(string, nat)> :: RenamedProperly(old(items), library, findings[library], es) ==>
          items == PutAll([], es)
      ensures library !in findings ==>
        if NoDefaultNames(old(items), library) then changed == Count(0) && items == old(items)
        else
          && changed == KeyError && |items| < |old(items)|
          && items == old(items)[..|items|] && NoDefaultNames(items, library)
          && DefaultNid(old(items)[|items|].0, library).Some?
    {
      hide DefaultNid, Find, ToRename, IsDefaultName, RenamedProperly, ToRenameAt;
      var n := 0;
      var oldEntries := items;
      items := [];
      ghost var f := if library in findings then findings[library] else [];
      for i := 0 to |oldEntries|
        invariant items == Replaced(oldEntries[..i], library, f)
        invariant n == CountRenamed(oldEntries[..i], library, f)
        invariant library !in findings ==> NoDefaultNames(oldEntries[..i], library)
      {
        var entry := oldEntries[i];
        ghost var before := oldEntries[..i];
        assert oldEntries[..i + 1] == before + [entry];
        ReplacedNext(before, entry, library, f);
        var nid := DefaultNid(entry.0, library);
        if nid.Some? {
          if library !in findings {
            NothingToReplace(before, library);
            return KeyError;
          }
          if HasKey(findings[library], nid.value) {
            Assign(Get(findings[library], nid.value), entry.1);
            n := n + 1;
          } else {
            Assign(entry.0, entry.1);
          }
        } else {
          Assign(entry.0, entry.1);
        }
      }
      assert oldEntries[..|oldEntries|] == oldEntries;
      var empty: Section := [];
      PutAllDistinct(empty, Renamed(oldEntries, library, f));
      if library !in findings {
        NothingToReplace(oldEntries, library);
      }
      changed := Count(n);
      CountRenamedExactly(oldEntries, library, f);
      ReplacedMeans(oldEntries, library, f);
    }

    /** `add_missing_entries` */
    method AddMissingEntries(library: string, findings: map<string, Findings>) returns (added: nat)
      modifies this
      ensures (items, added) == if library in findings then Added(old(items), findings[library]) else (old(items), 0)
    {
      added := 0;
      if library in findings {
        var f := findings[library];
        for i := 0 to |f|
          invariant Added(old(items), f) == (Added(items, f[i..]).0, added + Added(items, f[i..]).1)
        {
          if !Declares(items, f[i].0) {
            Assign(f[i].1, f[i].0);
            added := added + 1;
          }
        }
      }
    }
  }

  /** The section after one more assignment, and the count after one more entry. */
  lemma ReplacedNext(before: Section, entry: (string, nat), library: string, f: Findings)
    ensures Replaced(before + [entry], library, f) ==
      Put(Replaced(before, library, f), NewName(entry.0, library, f), entry.1)
    ensures CountRenamed(before + [entry], library, f) ==
      CountRenamed(before, library, f) + if Renames(entry.0, library, f) then 1 else 0
  {
    var all := before + [entry];
    var empty: Section := [];
    assert all[..|before|] == before;
    assert Renamed(all, library, f) == Renamed(before, library, f) + [(NewName(entry.0, library, f), entry.1)];
    PutAllSnoc(empty, Renamed(before, library, f), (NewName(entry.0, library, f), entry.1));
  }

  lemma ReplacedMeans(was: Section, library: string, f: Findings)
    ensures var d := Replaced(was, library, f);
      forall i :: 0 <= i < |d| && ToRename(d[i].0, library, f) ==> IsSymbol(d[i].0, f)
    ensures KeysDistinct(f) ==>
      forall es: seq<(string, nat)> :: RenamedProperly(was, library, f, es) ==>
        Replaced(was, library, f) == PutAll([], es)
  {
    hide ToRename, RenamedProperly;
    var d := Replaced(was, library, f);
    forall i | 0 <= i < |d| && ToRename(d[i].0, library, f) ensures IsSymbol(d[i].0, f) {
      NoneLeft(was, library, f, i);
    }
    if KeysDistinct(f) {
      forall es: seq<(string, nat)> | RenamedProperly(was, library, f, es) ensures d == PutAll([], es) {
        RenamingExactly(was, library, f, es);
      }
    }
  }

  lemma NothingToReplace(d: Section, library: string)
    requires KeysDistinct(d)
    ensures Replaced(d, library, []) == d && CountRenamed(d, library, []) == 0
  {
    assert Renamed(d, library, []) == d;
    ReplacedExactly(d, library, []);
    NothingRenamed(d, library, []);
  }

  /**
    The calls made for one section of one library: a missing section is created, and dropped if it is still empty at
    the end; `edited` stays or becomes positive when something was counted. If the first pass raises, the section is
    left as it is then: the entries before the first default name, and no others.
   */
  method UpdateSection(section: Entries?, library: string, findings: map<string, Findings>, edited: nat)
    returns (section': Entries?, edited': nat, failed: bool)
    requires section != null ==> KeysDistinct(section.items)
    modifies section
    ensures var was := if section == null then [] else old(section.items);
      if library in findings then
        var (d, changed, added) := Sync(was, library, findings[library]);
        && !failed
        && (edited' > 0 <==> edited + changed + added > 0)
        && (if d == [] then section' == null else section' != null && section'.items == d)
        && (section != null && section' != null ==> section' == section)
      else if NoDefaultNames(was, library) then
        && !failed && (edited' > 0 <==> edited > 0)
        && (if was == [] then section' == null else section' == section && section.items == was)
      else
        && failed && section != null && section' == section && edited' == edited
        && |section.items| < |was| && section.items == was[..|section.items|]
        && NoDefaultNames(section.items, library) && DefaultNid(was[|section.items|].0, library).Some?
  {
    section', edited', failed := section, edited, false;
    if section' == null {
      section' := new Entries([]);
    }
    var changed := section'.ReplaceEntries(library, findings);
    if changed.KeyError? {
      failed := true;
      return;
    }
    edited' := if edited' + changed.n > 0 then 1 else 0;
    var added := section'.AddMissingEntries(library, findings);
    edited' := if edited' + added > 0 then 1 else 0;
    if |section'.items| == 0 {
      section' := null;
    }
  }
}
