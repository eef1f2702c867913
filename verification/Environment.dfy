/**
  The environment store of VMLCoreAssemblies/environment.c: a NULL-terminated array of heap strings, searched,
  overwritten, reallocated and shifted in place.

  The ghost set `live` is the allocator's view: the string blocks that have been allocated and not freed. Strings are
  read only through live blocks, and only a live block can be freed, so the verifier checks that there is no use after
  free and no double free; that `live` is exactly the set of stored blocks says that nothing leaks.
 */
module Environment {
  import opened CStrings
  import opened EnvironmentSpec
  import opened Options

  /** A heap block holding a string; the text is written once, right after allocation. */
  class Block {
    const text: CString

    constructor (size: nat, text: CString)
      requires |text| < size
      ensures this.text == text
    {
      this.text := text;
    }
  }

  /** A `const char *` argument: NULL, a string elsewhere, or a position inside a block of the store. */
  datatype CharPtr = NullPtr | Outside(s: CString) | Inside(block: Block, offset: nat)

  /** The names that no call accepts. */
  ghost predicate Refused(name: Option<CString>) {
    name.None? || name.value == "" || '=' in name.value
  }

  lemma MapGet(m: Env, name: Option<CString>)
    ensures MapStep(m, Get(name)).1 ==
      Found(if !Refused(name) && name.value in m then Some(m[name.value]) else None)
  {
  }

  ghost function Texts(blocks: seq<Block>): (es: seq<CString>) {
    seq(|blocks|, i requires 0 <= i < |blocks| => blocks[i].text)
  }

  ghost function Stored(blocks: seq<Block>): set<Block> {
    set b | b in blocks
  }

  lemma Owned(blocks: seq<Block>, i: nat, b: Block)
    requires i < |blocks| && b !in blocks
    requires forall j, k :: 0 <= j < k < |blocks| ==> blocks[j] != blocks[k]
    ensures Stored(blocks[i := b]) == Stored(blocks) - {blocks[i]} + {b}
  {
    var after := blocks[i := b];
    forall x | x in blocks && x != blocks[i] ensures x in after {
      var j :| 0 <= j < |blocks| && blocks[j] == x;
      assert after[j] == x;
    }
    assert after[i] == b;
  }

  class Store {
    var env: array?<Block?>
    ghost var blocks: seq<Block>  // the entries of the array before its NULL
    ghost var vars: Env           // the variables they hold
    ghost var live: set<Block>

    ghost predicate Valid()
      reads this, env
    {
      ValidWith({})
    }

    /** Valid, but for live blocks that are not stored (yet). */
    ghost predicate ValidWith(loose: set<Block>)
      reads this, env
    {
      && (forall i, j :: 0 <= i < j < |blocks| ==> blocks[i] != blocks[j])
      && live == Stored(blocks) + loose
      && Represents(Entries(), vars)
      && Terminated()
    }

    /** The array holds `blocks` followed by NULL, in a capacity that has room for both. */
    ghost predicate Terminated()
      reads this, env
    {
      if env == null then blocks == [] else
        && |blocks| < env.Length
        && env[|blocks|] == null
        && forall i :: 0 <= i < |blocks| ==> env[i] == blocks[i]
    }

    ghost function Entries(): seq<CString>
      reads `blocks
    {
      Texts(blocks)
    }

    constructor ()
      ensures Valid() && env == null && vars == map[] && live == {}
    {
      env := null;
      blocks, vars, live := [], map[], {};
    }

    // ----- Memory

    ghost predicate Readable(p: CharPtr)
      reads `live
    {
      p.Inside? ==> p.block in live && p.offset <= |p.block.text|
    }

    /** The string an argument points to, if any. */
    function Deref(p: CharPtr): (s: Option<CString>)
      requires Readable(p)
      reads `live
    {
      match p
      case NullPtr => None
      case Outside(s) => Some(s)
      case Inside(block, offset) => Some(block.text[offset..])
    }

    /** Reading the string of a stored entry. */
    function Text(block: Block): CString
      requires block in live
      reads `live
    {
      block.text
    }

    /** `malloc` followed by the write of `text` into the new block. */
    method NewString(size: nat, text: CString, ok: bool) returns (block: Block?)
      requires |text| < size
      modifies `live
      ensures if ok then block != null && fresh(block) && block.text == text && live == old(live) + {block}
              else block == null && live == old(live)
    {
      block := null;
      if ok {
        block := new Block(size, text);
        live := live + {block};
      }
    }

    ghost method Free(block: Block)
      requires block in live
      modifies `live
      ensures live == old(live) - {block}
    {
      live := live - {block};
    }

    /** `realloc`: a larger or smaller copy, or NULL with the old array intact. */
    method Realloc(capacity: nat, ok: bool) returns (a: array?<Block?>)
      ensures if ok then a != null && fresh(a) && a.Length == capacity &&
                forall i :: 0 <= i < capacity && env != null && i < env.Length ==> a[i] == env[i]
              else a == null
    {
      a := null;
      if ok {
        var b := new Block?[capacity];
        if env != null {
          forall i | 0 <= i < capacity && i < env.Length {
            b[i] := env[i];
          }
        }
        a := b;
      }
    }

    // ----- The calls

    /** `VMLGetEnv` */
    method GetEnv(name: CharPtr) returns (value: CharPtr)
      requires Valid() && Readable(name)
      ensures Readable(value)
      ensures Found(Deref(value)) == Step(Entries(), Get(Deref(name))).1
      ensures Found(Deref(value)) == MapStep(vars, Get(Deref(name))).1
      ensures value == NullPtr <==> Refused(Deref(name)) || Deref(name).value !in vars
      ensures value != NullPtr ==> Deref(value) == Some(vars[Deref(name).value])
    {
      hide Represents, MapStep, StrNCmpEq, IndexOf;
      StepRefines(Entries(), vars, Get(Deref(name)));
      MapGet(vars, Deref(name));
      value := NullPtr;
      var s := Deref(name);
      if s.None? || s.value == "" || '=' in s.value {
        return;
      }
      if env != null {
        var n := s.value;
        var i := 0;
        while env[i] != null && value == NullPtr
          invariant i <= |blocks|
          invariant value == NullPtr ==> forall j :: 0 <= j < i ==> !Matches(Entries()[j], n)
          invariant value != NullPtr ==>
            && 0 < i && value == Inside(blocks[i - 1], |n| + 1)
            && Matches(Entries()[i - 1], n)
            && forall j :: 0 <= j < i - 1 ==> !Matches(Entries()[j], n)
          decreases |blocks| - i
        {
          var entry := env[i];
          assert entry == blocks[i] && Entries()[i] == entry.text;
          CompareThenTest(entry.text, n);
          if StrNCmpEq(Text(entry), n, |n|) && CharAt(Text(entry), |n|) == '=' {
            value := Inside(entry, |n| + 1);
          }
          i := i + 1;
        }
        IndexOfIs(Entries(), n, if value == NullPtr then i else i - 1);
      }
    }

    /** `VMLSetEnv`; both arguments may point into blocks of the store. */
    method SetEnv(name: CharPtr, value: CharPtr, overwrite: bool, mallocOk: bool, reallocOk: bool)
      returns (status: int)
      requires Valid() && Readable(name) && Readable(value)
      modifies this, env
      ensures Valid()
      ensures var call := Set(old(Deref(name)), old(Deref(value)), overwrite, mallocOk, reallocOk);
        && (Entries(), Status(status)) == Step(old(Entries()), call)
        && (vars, Status(status)) == MapStep(old(vars), call)
      ensures status != 0 ==> env == old(env) && blocks == old(blocks) && live == old(live)
      ensures var n, v := old(Deref(name)), old(Deref(value));
        if Refused(n) || v.None? then status == -1 && vars == old(vars)
        else if n.value in old(vars) && !overwrite then status == 0 && vars == old(vars)
        else if mallocOk && (n.value in old(vars) || reallocOk) then
          status == 0 && vars == old(vars)[n.value := v.value]
        else status == -1 && vars == old(vars)
    {
      hide Represents, StrNCmpEq, IndexOf;
      ghost var call := Set(Deref(name), Deref(value), overwrite, mallocOk, reallocOk);
      StepRefines(Entries(), vars, call);
      var s, v := Deref(name), Deref(value);
      if s.None? || s.value == "" || '=' in s.value || v.None? {
        return -1;
      }
      var n := s.value;
      if !overwrite {
        var present := GetEnv(name);
        if present != NullPtr {
          return 0;
        }
      }
      var size := |n| + |v.value| + 2;
      var newVariable := NewString(size, SNPrintf(size, Entry(n, v.value)), mallocOk);
      if newVariable == null {
        return -1;
      }
      status := Insert(newVariable, |n| + 1, n, v.value, reallocOk);
    }

    /** The rest of `VMLSetEnv`: the new entry replaces the one with its name, or is appended. */
    method Insert(newVariable: Block, len: nat, ghost n: CString, ghost v: CString, reallocOk: bool)
      returns (status: int)
      requires ValidWith({newVariable}) && newVariable !in blocks
      requires newVariable.text == Entry(n, v) && ValidName(n) && len == |n| + 1
      modifies this, env
      ensures Valid()
      ensures var i := IndexOf(old(Entries()), n);
        if i < |old(Entries())| then
          status == 0 && Entries() == old(Entries())[i := Entry(n, v)] && vars == old(vars)[n := v]
        else if reallocOk then
          status == 0 && Entries() == old(Entries()) + [Entry(n, v)] && vars == old(vars)[n := v]
        else
          status == -1 && blocks == old(blocks) && vars == old(vars) && env == old(env)
    {
      hide Represents, IndexOf, Entry;
      var added, i := false, 0;
      if env != null {
        i := FindByEntry(newVariable, len, n, v);
        if env[i] != null {
          ReplaceEntry(i, newVariable, n, v);
          added := true;
        }
      } else {
        IndexOfIs(Entries(), n, 0);
      }
      if !added {
        added := AppendEntry(i, newVariable, n, v, reallocOk);
      }
      status := if added then 0 else -1;
    }

    method ReplaceEntry(i: nat, newVariable: Block, ghost n: CString, ghost v: CString)
      requires ValidWith({newVariable}) && newVariable !in blocks
      requires newVariable.text == Entry(n, v) && ValidName(n)
      requires env != null && i == IndexOf(Entries(), n) < |blocks|
      modifies `blocks, `vars, `live, env
      ensures Valid() && Entries() == old(Entries())[i := Entry(n, v)] && vars == old(vars)[n := v]
    {
      hide Represents, IndexOf, Entry;
      ReplaceRefines(Entries(), vars, n, v);
      Owned(blocks, i, newVariable);
      Free(env[i]);
      env[i] := newVariable;
      blocks, vars := blocks[i := newVariable], vars[n := v];
      assert Entries() == old(Entries())[i := Entry(n, v)];
    }

    method AppendEntry(i: nat, newVariable: Block, ghost n: CString, ghost v: CString, reallocOk: bool)
      returns (added: bool)
      requires ValidWith({newVariable}) && newVariable !in blocks
      requires newVariable.text == Entry(n, v) && ValidName(n) && i == |blocks| == IndexOf(Entries(), n)
      modifies this
      ensures Valid() && added == reallocOk
      ensures added ==> Entries() == old(Entries()) + [Entry(n, v)] && vars == old(vars)[n := v]
      ensures !added ==> blocks == old(blocks) && vars == old(vars) && env == old(env)
    {
      hide Represents, IndexOf, Entry;
      var newEnv := Realloc(i + 2, reallocOk);
      if newEnv != null {
        AppendRefines(Entries(), vars, n, v);
        env := newEnv;
        env[i] := newVariable;
        env[i + 1] := null;
        blocks, vars := blocks + [newVariable], vars[n := v];
        assert Entries() == old(Entries()) + [Entry(n, v)];
        assert Stored(blocks) == Stored(old(blocks)) + {newVariable};
      } else {
        Free(newVariable);
      }
      added := newEnv != null;
    }

    /** The deletion loop: every slot from `i` on is overwritten with its successor, up to and including the NULL. */
    method ShiftLeft(i: nat)
      requires env != null && Terminated() && i < |blocks|
      modifies env, `blocks
      ensures Terminated() && blocks == old(blocks)[..i] + old(blocks)[i + 1..]
    {
      var j := i;
      while env[j] != null
        invariant i <= j <= |blocks|
        invariant forall k :: 0 <= k < i ==> env[k] == blocks[k]
        invariant forall k :: i <= k < j ==> env[k] == if k + 1 < |blocks| then blocks[k + 1] else null
        invariant forall k :: j <= k < |blocks| ==> env[k] == blocks[k]
        invariant env[|blocks|] == null
        decreases |blocks| - j
        modifies env
      {
        env[j] := env[j + 1];
        j := j + 1;
      }
      blocks := blocks[..i] + blocks[i + 1..];
    }

    /** `VMLUnsetEnv` */
    method UnsetEnv(name: CharPtr) returns (status: int)
      requires Valid() && Readable(name)
      modifies this, env
      ensures Valid() && env == old(env)
      ensures var call := Unset(old(Deref(name)));
        && (Entries(), Status(status)) == Step(old(Entries()), call)
        && (vars, Status(status)) == MapStep(old(vars), call)
      ensures var n := old(Deref(name));
        if Refused(n) || n.value !in old(vars) then status == -1 && vars == old(vars)
        else status == 0 && vars == old(vars) - {n.value}
    {
      hide Represents, StrNCmpEq, IndexOf;
      ghost var call := Unset(Deref(name));
      StepRefines(Entries(), vars, call);
      var s := Deref(name);
      if s.None? || s.value == "" || '=' in s.value {
        return -1;
      }
      var n := s.value;
      if env != null {
        var i := FindByName(n);
        if env[i] != null {
          RemoveEntry(i, n);
          return 0;
        }
      }
      return -1;
    }

    /** The search loop of `VMLUnsetEnv`. */
    method FindByName(n: CString) returns (i: nat)
      requires Valid() && env != null
      ensures i == IndexOf(Entries(), n) <= |blocks|
    {
      hide Represents, StrNCmpEq, IndexOf;
      i := 0;
      while env[i] != null
        invariant i <= |blocks|
        invariant forall j :: 0 <= j < i ==> !Matches(Entries()[j], n)
        decreases |blocks| - i
      {
        var entry := env[i];
        assert entry == blocks[i] && Entries()[i] == entry.text;
        CompareThenTest(entry.text, n);
        if StrNCmpEq(Text(entry), n, |n|) && CharAt(Text(entry), |n|) == '=' {
          break;
        }
        i := i + 1;
      }
      IndexOfIs(Entries(), n, i);
    }

    /** What `VMLUnsetEnv` does with the entry it has found. */
    method RemoveEntry(i: nat, ghost n: CString)
      requires Valid() && env != null && i < |blocks| && i == IndexOf(Entries(), n) && ValidName(n)
      modifies `blocks, `vars, `live, env
      ensures Valid()
      ensures Entries() == old(Entries())[..i] + old(Entries())[i + 1..] && vars == old(vars) - {n}
    {
      hide Represents, IndexOf;
      RemoveRefines(Entries(), vars, n);
      Free(env[i]);
      ShiftLeft(i);
      vars := vars - {n};
      assert Entries() == old(Entries())[..i] + old(Entries())[i + 1..];
    }

    /** The search loop of `VMLSetEnv`, which compares with the new entry itself, up to and including its '='. */
    method FindByEntry(newVariable: Block, len: nat, ghost n: CString, ghost v: CString) returns (i: nat)
      requires ValidWith({newVariable}) && env != null
      requires newVariable.text == Entry(n, v) && ValidName(n) && len == |n| + 1
      ensures i == IndexOf(Entries(), n) <= |blocks|
    {
      hide Represents, StrNCmpEq, IndexOf;
      i := 0;
      while env[i] != null
        invariant i <= |blocks|
        invariant forall j :: 0 <= j < i ==> !Matches(Entries()[j], n)
        decreases |blocks| - i
      {
        assert env[i] == blocks[i] && Entries()[i] == blocks[i].text;
        CompareWithEq(Entries()[i], n, v);
        if StrNCmpEq(Text(env[i]), Text(newVariable), len) {
          break;
        }
        i := i + 1;
      }
      IndexOfIs(Entries(), n, i);
    }
  }
}
