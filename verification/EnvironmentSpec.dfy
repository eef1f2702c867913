/**
  The environment on values: a sequence of "name=value" entries, the calls as steps on it, and the map it stands for.
 */
module EnvironmentSpec {
  import opened CStrings
  import opened Options

  // ----- Entries

  predicate ValidName(n: CString) {
    n != "" && '=' !in n
  }

  /** The test of every lookup: the entry starts with the name and '='. */
  predicate Matches(e: CString, n: CString) {
    |n| < |e| && e[..|n|] == n && e[|n|] == '='
  }

  function Entry(n: CString, v: CString): CString {
    n + "=" + v
  }

  /** The entry was built from some valid name and some value. */
  predicate WellFormed(e: CString) {
    '=' in e && e[0] != '='
  }

  function FirstEq(e: CString): (k: nat)
    requires '=' in e
    ensures k < |e| && e[k] == '=' && '=' !in e[..k]
  {
    if e[0] == '=' then 0 else 1 + FirstEq(e[1..])
  }

  function NameOf(e: CString): CString
    requires '=' in e
  {
    e[..FirstEq(e)]
  }

  function ValueOf(e: CString): CString
    requires '=' in e
  {
    e[FirstEq(e) + 1..]
  }

  /** Prefix lookup is exact. */
  lemma MatchesExactly(e: CString, n: CString)
    requires '=' in e && '=' !in n
    ensures Matches(e, n) <==> NameOf(e) == n
  {
    var k := FirstEq(e);
    if Matches(e, n) {
      assert forall j :: 0 <= j < |n| ==> e[j] == n[j] && n[j] in n;
      assert k >= |n|;
      assert forall j :: 0 <= j < k ==> e[j] == e[..k][j] && e[..k][j] in e[..k];
      assert k <= |n|;
    }
  }

  /** What was stored under a valid name is read back, even if the value contains '='. */
  lemma EntryParts(n: CString, v: CString)
    requires ValidName(n)
    ensures WellFormed(Entry(n, v)) && NameOf(Entry(n, v)) == n && ValueOf(Entry(n, v)) == v
    ensures Matches(Entry(n, v), n)
  {
    var e := Entry(n, v);
    assert e[|n|] == '=';
    assert e[..|n|] == n && e[0] == n[0] && n[0] in n;
    MatchesExactly(e, n);
    assert e[|n| + 1..] == v;
  }

  // ----- The tests made by the three searches

  /** `strncmp (e, n, len) == 0 && e[len] == '='` with len = strlen (n): the second read stays inside the string. */
  lemma CompareThenTest(e: CString, n: CString)
    ensures StrNCmpEq(e, n, |n|) ==> |n| <= |e|
    ensures (StrNCmpEq(e, n, |n|) && CharAt(e, |n|) == '=') <==> Matches(e, n)
  {
    StrNCmpEqPrefix(e, n, |n|);
  }

  /** `strncmp (e, "n=v", len) == 0` with len = strlen (n) + 1, which covers the '='. */
  lemma CompareWithEq(e: CString, n: CString, v: CString)
    ensures StrNCmpEq(e, Entry(n, v), |n| + 1) <==> Matches(e, n)
  {
    var len := |n| + 1;
    StrNCmpEqPrefix(e, Entry(n, v), len);
    var named := n + "=";
    assert Take(Entry(n, v), len) == named;
    assert named[..|n|] == n && named[|n|] == '=';
    if len <= |e| {
      var start := e[..len];
      assert start[..|n|] == e[..|n|] && start[|n|] == e[|n|];
      assert start == start[..|n|] + [start[|n|]];
      assert named == named[..|n|] + [named[|n|]];
    }
  }

  // ----- Searching, replacing, appending, removing

  /** The position of the first entry for `n`, or the number of entries. */
  function IndexOf(es: seq<CString>, n: CString): (i: nat)
    ensures i <= |es| && (i < |es| ==> Matches(es[i], n))
    ensures forall j :: 0 <= j < i ==> !Matches(es[j], n)
  {
    if es == [] || Matches(es[0], n) then 0 else 1 + IndexOf(es[1..], n)
  }

  lemma {:induction false} IndexOfIs(es: seq<CString>, n: CString, i: nat)
    requires i <= |es| && (i < |es| ==> Matches(es[i], n))
    requires forall j :: 0 <= j < i ==> !Matches(es[j], n)
    ensures i == IndexOf(es, n)
  {
    var k := IndexOf(es, n);
    assert k < |es| ==> Matches(es[k], n);
  }

  datatype Call =
    | Get(name: Option<CString>)
    | Set(name: Option<CString>, val: Option<CString>, overwrite: bool, mallocOk: bool, reallocOk: bool)
    | Unset(name: Option<CString>)

  datatype Reply = Found(val: Option<CString>) | Status(code: int)

  predicate GoodName(name: Option<CString>) {
    name.Some? && ValidName(name.value)
  }

  /** One call on the sequence of entries, with the outcome of each allocation given. */
  function Step(es: seq<CString>, call: Call): (seq<CString>, Reply) {
    if !GoodName(call.name) then
      (es, if call.Get? then Found(None) else Status(-1))
    else
      var n := call.name.value;
      var i := IndexOf(es, n);
      match call
      case Get(_) =>
        (es, Found(if i < |es| then Some(es[i][|n| + 1..]) else None))
      case Set(_, val, overwrite, mallocOk, reallocOk) =>
        if val.None? then (es, Status(-1))
        else if !overwrite && i < |es| then (es, Status(0))
        else if !mallocOk then (es, Status(-1))
        else if i < |es| then (es[i := Entry(n, val.value)], Status(0))
        else if reallocOk then (es + [Entry(n, val.value)], Status(0))
        else (es, Status(-1))
      case Unset(_) =>
        if i < |es| then (es[..i] + es[i + 1..], Status(0)) else (es, Status(-1))
  }

  function Run(es: seq<CString>, calls: seq<Call>): (seq<CString>, seq<Reply>)
    decreases |calls|
  {
    if calls == [] then (es, [])
    else
      var (es', reply) := Step(es, calls[0]);
      var (es'', replies) := Run(es', calls[1..]);
      (es'', [reply] + replies)
  }

  // ----- The specification: a map from names to values

  type Env = map<CString, CString>

  function MapStep(m: Env, call: Call): (Env, Reply) {
    if !GoodName(call.name) then
      (m, if call.Get? then Found(None) else Status(-1))
    else
      var n := call.name.value;
      match call
      case Get(_) =>
        (m, Found(if n in m then Some(m[n]) else None))
      case Set(_, val, overwrite, mallocOk, reallocOk) =>
        if val.Some? && n in m && !overwrite then (m, Status(0))
        else if val.Some? && mallocOk && (n in m || reallocOk) then (m[n := val.value], Status(0))
        else (m, Status(-1))
      case Unset(_) =>
        if n in m then (m - {n}, Status(0)) else (m, Status(-1))
  }

  function MapRun(m: Env, calls: seq<Call>): (Env, seq<Reply>)
    decreases |calls|
  {
    if calls == [] then (m, [])
    else
      var (m', reply) := MapStep(m, calls[0]);
      var (m'', replies) := MapRun(m', calls[1..]);
      (m'', [reply] + replies)
  }

  function Names(es: seq<CString>): (ns: seq<CString>)
    requires AllWellFormed(es)
  {
    seq(|es|, i requires 0 <= i < |es| => NameOf(es[i]))
  }

  function Values(es: seq<CString>): (vs: seq<CString>)
    requires AllWellFormed(es)
  {
    seq(|es|, i requires 0 <= i < |es| => ValueOf(es[i]))
  }

  /** No key occurs twice, and `m` holds exactly the listed keys with the values beside them. */
  ghost predicate Lists<K, V>(ks: seq<K>, vs: seq<V>, m: map<K, V>) {
    && |ks| == |vs|
    && (forall i, j :: 0 <= i < j < |ks| ==> ks[i] != ks[j])
    && (forall i :: 0 <= i < |ks| ==> ks[i] in m && m[ks[i]] == vs[i])
    && (forall k :: k in m ==> k in ks)
  }

  ghost predicate AllWellFormed(es: seq<CString>) {
    forall i :: 0 <= i < |es| ==> WellFormed(es[i])
  }

  /** Entries are well formed, no name occurs twice, and `m` holds exactly their names and values. */
  ghost predicate Represents(es: seq<CString>, m: Env) {
    AllWellFormed(es) && Lists(Names(es), Values(es), m)
  }

  lemma ListsReplace<K, V>(ks: seq<K>, vs: seq<V>, m: map<K, V>, i: nat, v: V)
    requires Lists(ks, vs, m) && i < |ks|
    ensures Lists(ks, vs[i := v], m[ks[i] := v])
  {
  }

  lemma ListsAppend<K, V>(ks: seq<K>, vs: seq<V>, m: map<K, V>, k: K, v: V)
    requires Lists(ks, vs, m) && k !in m
    ensures Lists(ks + [k], vs + [v], m[k := v])
  {
    var ks' := ks + [k];
    forall k' | k' in m[k := v] ensures k' in ks' {
      if k' == k { assert ks'[|ks|] == k; } else { assert k' in ks; }
    }
  }

  lemma ListsRemove<K, V>(ks: seq<K>, vs: seq<V>, m: map<K, V>, i: nat)
    requires Lists(ks, vs, m) && i < |ks|
    ensures Lists(ks[..i] + ks[i + 1..], vs[..i] + vs[i + 1..], m - {ks[i]})
  {
    var ks', vs' := ks[..i] + ks[i + 1..], vs[..i] + vs[i + 1..];
    forall j | 0 <= j < |ks'| ensures ks'[j] in m - {ks[i]} && m[ks'[j]] == vs'[j] {
      var j' := if j < i then j else j + 1;
      assert ks'[j] == ks[j'] && vs'[j] == vs[j'];
    }
    forall k | k in m - {ks[i]} ensures k in ks' {
      var j :| 0 <= j < |ks| && ks[j] == k;
      assert ks'[if j < i then j else j - 1] == k;
    }
  }

  /** The search finds the name's own entry, and the text after the '=' is its value. */
  lemma Lookup(es: seq<CString>, m: Env, n: CString)
    requires Represents(es, m) && ValidName(n)
    ensures var i := IndexOf(es, n);
      if i < |es| then n in m && Names(es)[i] == n && m[n] == es[i][|n| + 1..] else n !in m
  {
    var i := IndexOf(es, n);
    if i < |es| {
      MatchesExactly(es[i], n);
      assert NameOf(es[i]) == n && Names(es)[i] == n;
    } else {
      forall j | 0 <= j < |es| ensures Names(es)[j] != n {
        MatchesExactly(es[j], n);
      }
    }
  }

  lemma ReplaceRefines(es: seq<CString>, m: Env, n: CString, v: CString)
    requires Represents(es, m) && ValidName(n) && IndexOf(es, n) < |es|
    ensures Represents(es[IndexOf(es, n) := Entry(n, v)], m[n := v])
  {
    hide Entry, WellFormed, NameOf, ValueOf, IndexOf, ValidName, Lists, FirstEq, Matches;
    var i := IndexOf(es, n);
    var es' := es[i := Entry(n, v)];
    EntryParts(n, v);
    Lookup(es, m, n);
    ListsReplace(Names(es), Values(es), m, i, v);
    assert AllWellFormed(es') && Names(es') == Names(es) && Values(es') == Values(es)[i := v];
  }

  lemma AppendRefines(es: seq<CString>, m: Env, n: CString, v: CString)
    requires Represents(es, m) && ValidName(n) && IndexOf(es, n) == |es|
    ensures Represents(es + [Entry(n, v)], m[n := v])
  {
    hide Entry, WellFormed, NameOf, ValueOf, IndexOf, ValidName, Lists, FirstEq, Matches;
    var es' := es + [Entry(n, v)];
    EntryParts(n, v);
    Lookup(es, m, n);
    ListsAppend(Names(es), Values(es), m, n, v);
    assert AllWellFormed(es') && Names(es') == Names(es) + [n] && Values(es') == Values(es) + [v];
  }

  lemma RemoveRefines(es: seq<CString>, m: Env, n: CString)
    requires Represents(es, m) && ValidName(n) && IndexOf(es, n) < |es|
    ensures var i := IndexOf(es, n); Represents(es[..i] + es[i + 1..], m - {n})
  {
    hide WellFormed, NameOf, ValueOf, IndexOf, ValidName, Lists, FirstEq, Matches;
    var i := IndexOf(es, n);
    var es' := es[..i] + es[i + 1..];
    Lookup(es, m, n);
    ListsRemove(Names(es), Values(es), m, i);
    assert AllWellFormed(es');
    assert Names(es') == Names(es)[..i] + Names(es)[i + 1..];
    assert Values(es') == Values(es)[..i] + Values(es)[i + 1..];
  }

  /** Each call does to the map what it says, and answers as the map would. */
  lemma StepRefines(es: seq<CString>, m: Env, call: Call)
    requires Represents(es, m)
    ensures Represents(Step(es, call).0, MapStep(m, call).0) && Step(es, call).1 == MapStep(m, call).1
  {
    if GoodName(call.name) {
      var n := call.name.value;
      Lookup(es, m, n);
      match call
      case Get(_) =>
      case Set(_, val, overwrite, mallocOk, reallocOk) =>
        if val.Some? && mallocOk {
          if IndexOf(es, n) < |es| {
            if overwrite { ReplaceRefines(es, m, n, val.value); }
          } else if reallocOk {
            AppendRefines(es, m, n, val.value);
          }
        }
      case Unset(_) =>
        if IndexOf(es, n) < |es| {
          RemoveRefines(es, m, n);
        }
    }
  }

  /** Over every sequence of calls, with allocations failing at will, the store answers like a map. */
  lemma {:induction false} RunRefines(es: seq<CString>, m: Env, calls: seq<Call>)
    requires Represents(es, m)
    ensures Represents(Run(es, calls).0, MapRun(m, calls).0) && Run(es, calls).1 == MapRun(m, calls).1
    decreases |calls|
  {
    if calls != [] {
      StepRefines(es, m, calls[0]);
      RunRefines(Step(es, calls[0]).0, MapStep(m, calls[0]).0, calls[1..]);
    }
  }

  // ----- What a caller sees

  /** Setting a variable is refused exactly for a missing, empty or '='-bearing name and for a missing value. */
  lemma SetAccepted(m: Env, name: Option<CString>, val: Option<CString>)
    ensures MapStep(m, Set(name, val, true, true, true)).1 == Status(0) <==>
      name.Some? && name.value != "" && '=' !in name.value && val.Some?
    ensures name.None? || name.value == "" || '=' in name.value ==>
      && MapStep(m, Get(name)) == (m, Found(None))
      && MapStep(m, Unset(name)) == (m, Status(-1))
      && forall overwrite, mallocOk, reallocOk ::
           MapStep(m, Set(name, val, overwrite, mallocOk, reallocOk)) == (m, Status(-1))
    ensures val.None? ==> forall overwrite, mallocOk, reallocOk ::
      MapStep(m, Set(name, val, overwrite, mallocOk, reallocOk)) == (m, Status(-1))
  {
  }

  lemma TwoCalls(m: Env, call: Call, next: Call)
    ensures MapRun(m, [call, next]).1 == [MapStep(m, call).1, MapStep(MapStep(m, call).0, next).1]
  {
    var m' := MapStep(m, call).0;
    assert [call, next][1..] == [next] && [next][1..] == [];
    assert MapRun(MapStep(m', next).0, []).1 == [];
    assert MapRun(m', [next]).1 == [MapStep(m', next).1];
  }

  /** What every kind of call answers, and what is then read under any name. */
  lemma CallThenGet(m: Env, n: CString, v: CString, n': CString, reallocOk: bool)
    requires n != "" && '=' !in n && n' != "" && '=' !in n'
    ensures var was := if n' in m then Some(m[n']) else None;
      && MapRun(m, [Set(Some(n), Some(v), true, true, true), Get(Some(n'))]).1
           == [Status(0), Found(if n' == n then Some(v) else was)]
      && MapRun(m, [Set(Some(n), Some(v), false, true, true), Get(Some(n'))]).1
           == [Status(0), Found(if n' == n && n !in m then Some(v) else was)]
      && MapRun(m, [Set(Some(n), Some(v), true, false, reallocOk), Get(Some(n'))]).1
           == [Status(-1), Found(was)]
      && MapRun(m, [Set(Some(n), Some(v), true, true, false), Get(Some(n'))]).1
           == (if n in m then [Status(0), Found(if n' == n then Some(v) else was)] else [Status(-1), Found(was)])
      && MapRun(m, [Unset(Some(n)), Get(Some(n'))]).1
           == [if n in m then Status(0) else Status(-1), Found(if n' == n then None else was)]
  {
    var get := Get(Some(n'));
    TwoCalls(m, Set(Some(n), Some(v), true, true, true), get);
    TwoCalls(m, Set(Some(n), Some(v), false, true, true), get);
    TwoCalls(m, Set(Some(n), Some(v), true, false, reallocOk), get);
    TwoCalls(m, Set(Some(n), Some(v), true, true, false), get);
    TwoCalls(m, Unset(Some(n)), get);
  }

  /** The same for the entries of the store. */
  lemma StoredThenRead(es: seq<CString>, m: Env, n: CString, v: CString)
    requires Represents(es, m) && n != "" && '=' !in n
    ensures Run(es, [Set(Some(n), Some(v), true, true, true), Get(Some(n))]).1 == [Status(0), Found(Some(v))]
    ensures Run(es, [Unset(Some(n)), Get(Some(n))]).1 == [if n in m then Status(0) else Status(-1), Found(None)]
  {
    hide Represents, Run, MapRun;
    CallThenGet(m, n, v, n, true);
    RunRefines(es, m, [Set(Some(n), Some(v), true, true, true), Get(Some(n))]);
    RunRefines(es, m, [Unset(Some(n)), Get(Some(n))]);
  }
}
