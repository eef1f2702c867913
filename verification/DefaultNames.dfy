/**
  The default names that tools/replace-nid-symbols-sce.py looks for: the library, an underscore and the NID in
  hexadecimal digits. They are recognised and read as in Python, and compared with how such a number is written.
 */
module DefaultNames {
  import opened Options

  predicate IsHexDigit(c: char) {
    '0' <= c <= '9' || 'a' <= c <= 'f' || 'A' <= c <= 'F'
  }

  /** The pattern ^[a-fA-F0-9]+$ as `re.search` takes it: the `$` also matches before a final line feed. */
  predicate IsHexString(s: string) {
    var digits := WithoutFinalLineFeed(s);
    digits != "" && forall i :: 0 <= i < |digits| ==> IsHexDigit(digits[i])
  }

  function WithoutFinalLineFeed(s: string): string {
    if s != "" && s[|s| - 1] == '\n' then s[..|s| - 1] else s
  }

  function DigitValue(c: char): nat
    requires IsHexDigit(c)
  {
    if '0' <= c <= '9' then c as int - '0' as int
    else if 'a' <= c <= 'f' then c as int - 'a' as int + 10
    else c as int - 'A' as int + 10
  }

  function HexValue(digits: string): nat
    requires forall i :: 0 <= i < |digits| ==> IsHexDigit(digits[i])
  {
    if digits == "" then 0
    else 16 * HexValue(digits[..|digits| - 1]) + DigitValue(digits[|digits| - 1])
  }

  /** `rsplit ('_', 1)`: the parts around the last underscore, if there is one. */
  function RSplit(s: string): (parts: Option<(string, string)>)
    ensures match parts
      case None => '_' !in s
      case Some((head, tail)) => s == head + "_" + tail && '_' !in tail
  {
    if s == "" then None
    else if s[|s| - 1] == '_' then Some((s[..|s| - 1], ""))
    else
      match RSplit(s[..|s| - 1])
      case None => None
      case Some((head, tail)) => Some((head, tail + [s[|s| - 1]]))
  }

  /** The NID in a default name of the library's entries. */
  function DefaultNid(name: string, library: string): Option<nat> {
    match RSplit(name)
    case None => None
    case Some((head, tail)) =>
      if head == library && IsHexString(tail) then Some(HexValue(WithoutFinalLineFeed(tail))) else None
  }

  /** Splitting at the last underscore recovers the parts, whatever underscores the library's name has. */
  lemma RSplitInverse(head: string, tail: string)
    requires '_' !in tail
    ensures RSplit(head + "_" + tail) == Some((head, tail))
  {
    var s := head + "_" + tail;
    assert s[|head|] == '_' && s[|head| + 1..] == tail && s[..|head|] == head;
    var parts := RSplit(s).value;
    assert s[|parts.0|] == '_' && s[|parts.0| + 1..] == parts.1 && s[..|parts.0|] == parts.0;
    LastUnderscoreUnique(s, |head|, |parts.0|);
  }

  lemma LastUnderscoreUnique(s: string, a: nat, b: nat)
    requires a < |s| && b < |s| && s[a] == s[b] == '_'
    requires '_' !in s[a + 1..] && '_' !in s[b + 1..]
    ensures a == b
  {
    forall j | a < j < |s| ensures s[j] != '_' { assert s[j] == s[a + 1..][j - a - 1]; }
    forall j | b < j < |s| ensures s[j] != '_' { assert s[j] == s[b + 1..][j - b - 1]; }
  }

  lemma HexHasNoUnderscore(hex: string)
    requires IsHexString(hex)
    ensures '_' !in hex
  {
    var digits := WithoutFinalLineFeed(hex);
    forall i | 0 <= i < |hex| ensures hex[i] != '_' {
      if i < |digits| { assert IsHexDigit(digits[i]); }
    }
  }

  // ----- How numbers are written

  const LowerDigits := "0123456789abcdef"
  const UpperDigits := "0123456789ABCDEF"

  /** The digits of `v`, by repeated division. */
  function HexString(v: nat, table: string): (s: string)
    requires |table| == 16
    ensures s != ""
  {
    if v < 16 then [table[v]] else HexString(v / 16, table) + [table[v % 16]]
  }

  function Zeros(k: nat): string {
    seq(k, _ => '0')
  }

  function ToLower(c: char): char {
    if 'A' <= c <= 'F' then (c as int + 32) as char else c
  }

  function Lowered(s: string): (r: string)
    ensures |r| == |s|
  {
    seq(|s|, i requires 0 <= i < |s| => ToLower(s[i]))
  }

  /** The digits are those of `v`, in either case, after any number of zeros. */
  ghost predicate Denotes(digits: string, v: nat) {
    exists k: nat :: Lowered(digits) == Zeros(k) + HexString(v, LowerDigits)
  }

  /** The name is the library, an underscore and digits of `v`; a line feed may follow. */
  ghost predicate IsDefaultName(name: string, library: string, v: nat) {
    exists digits, end :: DefaultNameParts(name, library, v, digits, end)
  }

  ghost predicate DefaultNameParts(name: string, library: string, v: nat, digits: string, end: string) {
    name == library + "_" + digits + end && Denotes(digits, v) && (end == "" || end == "\n")
  }

  lemma DigitInTable(table: string, d: nat)
    requires (table == LowerDigits || table == UpperDigits) && d < 16
    ensures IsHexDigit(table[d]) && DigitValue(table[d]) == d
  {
  }

  lemma TableHasDigit(c: char)
    requires IsHexDigit(c)
    ensures DigitValue(c) < 16 && ToLower(c) == LowerDigits[DigitValue(c)]
  {
  }

  /** The pattern accepts just the digits of both tables. */
  lemma HexDigitExactly(c: char)
    ensures IsHexDigit(c) <==> c in "0123456789abcdefABCDEF"
    ensures IsHexDigit(c) <==> ToLower(c) in LowerDigits
  {
    var all := "0123456789abcdefABCDEF";
    if IsHexDigit(c) {
      TableHasDigit(c);
      var d := DigitValue(c);
      assert c == if 'A' <= c <= 'F' then all[d + 6] else all[d];
    }
  }

  ghost predicate AllHex(s: string) {
    forall i :: 0 <= i < |s| ==> IsHexDigit(s[i])
  }

  lemma ValueSnoc(s: string, c: char)
    requires AllHex(s) && IsHexDigit(c)
    ensures AllHex(s + [c]) && HexValue(s + [c]) == 16 * HexValue(s) + DigitValue(c)
  {
    assert (s + [c])[..|s|] == s;
  }

  lemma {:induction false} ZerosValue(k: nat)
    ensures AllHex(Zeros(k)) && HexValue(Zeros(k)) == 0
  {
    if k > 0 {
      ZerosValue(k - 1);
      ValueSnoc(Zeros(k - 1), '0');
      assert Zeros(k) == Zeros(k - 1) + ['0'];
    }
  }

  /** Reading back what was written gives the number, in either case and with any number of leading zeros. */
  lemma {:induction false} ReadsBack(v: nat, k: nat, table: string)
    requires table == LowerDigits || table == UpperDigits
    ensures AllHex(Zeros(k) + HexString(v, table)) && HexValue(Zeros(k) + HexString(v, table)) == v
    decreases v
  {
    hide HexValue, IsHexDigit, DigitValue;
    ZerosValue(k);
    DigitInTable(table, v % 16);
    if v < 16 {
      ValueSnoc(Zeros(k), table[v]);
    } else {
      var high := Zeros(k) + HexString(v / 16, table);
      ReadsBack(v / 16, k, table);
      ValueSnoc(high, table[v % 16]);
      assert Zeros(k) + HexString(v, table) == high + [table[v % 16]];
    }
  }

  lemma {:induction false} LoweredValue(s: string)
    requires AllHex(s)
    ensures AllHex(Lowered(s)) && HexValue(Lowered(s)) == HexValue(s)
  {
    if s != "" {
      var n := |s| - 1;
      LoweredValue(s[..n]);
      TableHasDigit(s[n]);
      DigitInTable(LowerDigits, DigitValue(s[n]));
      ValueSnoc(Lowered(s[..n]), ToLower(s[n]));
      assert Lowered(s) == Lowered(s[..n]) + [ToLower(s[n])];
    }
  }

  /** Every string of digits is, but for the case of letters and leading zeros, what its value is written as. */
  lemma {:induction false} WritesBack(s: string)
    requires s != "" && AllHex(s)
    ensures var w := HexString(HexValue(s), LowerDigits);
      |w| <= |s| && Lowered(s) == Zeros(|s| - |w|) + w
  {
    hide HexString, DigitValue, IsHexDigit, ToLower;
    var n := |s| - 1;
    var low, d := s[..n], DigitValue(s[n]);
    var v := HexValue(low);
    TableHasDigit(s[n]);
    assert HexValue(s) == 16 * v + d;
    assert Lowered(s) == Lowered(low) + [LowerDigits[d]];
    if low == "" {
      assert v == 0;
      assert HexString(d, LowerDigits) == [LowerDigits[d]] by { OneDigit(d); }
    } else {
      WritesBack(low);
      WrittenNext(v, d, n);
    }
  }

  lemma OneDigit(d: nat)
    requires d < 16
    ensures HexString(d, LowerDigits) == [LowerDigits[d]]
  {
  }

  /** One more digit behind those of `v`, padded with zeros to `n` digits. */
  lemma WrittenNext(v: nat, d: nat, n: nat)
    requires d < 16 && |HexString(v, LowerDigits)| <= n
    ensures var w, w' := HexString(v, LowerDigits), HexString(16 * v + d, LowerDigits);
      |w'| <= n + 1 && Zeros(n - |w|) + w + [LowerDigits[d]] == Zeros(n + 1 - |w'|) + w'
  {
    if v == 0 {
      assert Zeros(n - 1) + ['0'] == Zeros(n);
    } else {
      assert (16 * v + d) / 16 == v && (16 * v + d) % 16 == d;
    }
  }

  /** A string of digits denotes its value, and no other string and no other number match. */
  lemma DenotesExactly(digits: string, v: nat)
    ensures Denotes(digits, v) <==> digits != "" && AllHex(digits) && HexValue(digits) == v
  {
    if Denotes(digits, v) {
      var k: nat :| Lowered(digits) == Zeros(k) + HexString(v, LowerDigits);
      ReadsBack(v, k, LowerDigits);
      forall i | 0 <= i < |digits| ensures IsHexDigit(digits[i]) {
        assert IsHexDigit(Lowered(digits)[i]);
        LoweredDigit(digits[i]);
      }
      LoweredValue(digits);
    }
    if digits != "" && AllHex(digits) && HexValue(digits) == v {
      WritesBack(digits);
    }
  }

  lemma LoweredDigit(c: char)
    requires IsHexDigit(ToLower(c))
    ensures IsHexDigit(c)
  {
  }

  /** What is taken for a default name is written as one. */
  lemma DefaultNameIs(name: string, library: string, v: nat)
    requires DefaultNid(name, library) == Some(v)
    ensures IsDefaultName(name, library, v)
  {
    hide Denotes, HexValue;
    var (head, tail) := RSplit(name).value;
    var digits := WithoutFinalLineFeed(tail);
    var end := if digits == tail then "" else "\n";
    assert tail == digits + end;
    DenotesExactly(digits, v);
    hide *;
    assert name == library + "_" + tail;
    assert library + "_" + (digits + end) == library + "_" + digits + end;
    PartsGiven(name, library, v, digits, end);
  }

  lemma PartsGiven(name: string, library: string, v: nat, digits: string, end: string)
    requires name == library + "_" + digits + end && Denotes(digits, v) && (end == "" || end == "\n")
    ensures IsDefaultName(name, library, v)
  {
    hide Denotes;
    assert DefaultNameParts(name, library, v, digits, end);
  }

  /** What is written as a default name is taken for one. */
  lemma DefaultNameTaken(name: string, library: string, v: nat, digits: string, end: string)
    requires DefaultNameParts(name, library, v, digits, end)
    ensures DefaultNid(name, library) == Some(v)
  {
    hide Denotes, HexValue;
    var tail := digits + end;
    DenotesExactly(digits, v);
    LineFeedDropped(digits, end);
    HexHasNoUnderscore(tail);
    RSplitInverse(library, tail);
    assert name == library + "_" + tail;
  }

  lemma LineFeedDropped(digits: string, end: string)
    requires digits != "" && AllHex(digits) && (end == "" || end == "\n")
    ensures WithoutFinalLineFeed(digits + end) == digits && IsHexString(digits + end)
  {
    assert digits[|digits| - 1] != '\n';
    assert end == "" ==> digits + end == digits;
  }

  /** A name is taken for the default name of `v` exactly when it is the library, an underscore and digits of `v`. */
  lemma DefaultNidExactly(name: string, library: string, v: nat)
    ensures DefaultNid(name, library) == Some(v) <==> IsDefaultName(name, library, v)
  {
    hide DefaultNid, DefaultNameParts;
    if DefaultNid(name, library) == Some(v) {
      DefaultNameIs(name, library, v);
    }
    if IsDefaultName(name, library, v) {
      var digits, end :| DefaultNameParts(name, library, v, digits, end);
      DefaultNameTaken(name, library, v, digits, end);
    }
  }
}
