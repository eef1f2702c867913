/**
  NUL-terminated strings: the value of a `char *` is what precedes the terminator.
 */
module CStrings {

  type CString = s: string | '\0' !in s

  /** The character at offset `k`; reading the terminator is the last legal access. */
  function CharAt(s: CString, k: nat): char
    requires k <= |s|
  {
    if k < |s| then s[k] else '\0'
  }

  /** `strncmp (a, b, n) == 0`, comparing character by character up to a terminator. */
  predicate StrNCmpEq(a: CString, b: CString, n: nat)
    decreases n
  {
    if n == 0 then true
    else if CharAt(a, 0) != CharAt(b, 0) then false
    else a == "" || StrNCmpEq(a[1..], b[1..], n - 1)
  }

  /** The text left by `snprintf` in a buffer of `size` bytes. */
  function SNPrintf(size: nat, s: CString): CString
    requires size >= 1
  {
    if |s| < size then s else s[..size - 1]
  }

  function Take(s: CString, n: nat): CString {
    if n <= |s| then s[..n] else s
  }

  lemma TakeCons(a: CString, n: nat)
    requires a != "" && n > 0
    ensures Take(a, n) == [a[0]] + Take(a[1..], n - 1)
  {
  }

  lemma ConsEqual<E>(x: E, s: seq<E>, y: E, t: seq<E>)
    ensures [x] + s == [y] + t <==> x == y && s == t
  {
    assert ([x] + s)[0] == x && ([y] + t)[0] == y;
    assert ([x] + s)[1..] == s && ([y] + t)[1..] == t;
  }

  /** The length-limited comparison sees exactly the first `n` characters. */
  lemma {:induction false} StrNCmpEqPrefix(a: CString, b: CString, n: nat)
    ensures StrNCmpEq(a, b, n) <==> Take(a, n) == Take(b, n)
    decreases n
  {
    if n > 0 {
      if a == "" || b == "" {
        assert b != "" ==> b[0] in b && |Take(b, n)| > 0;
        assert a != "" ==> a[0] in a && |Take(a, n)| > 0;
      } else {
        StrNCmpEqPrefix(a[1..], b[1..], n - 1);
        TakeCons(a, n);
        TakeCons(b, n);
        ConsEqual(a[0], Take(a[1..], n - 1), b[0], Take(b[1..], n - 1));
      }
    }
  }
}
