/** NUL-terminated character strings, as C stores them.

    A read-only C string (a `const char *`) is modelled as a sequence that holds a
    '\0' somewhere; the string itself is everything before the first '\0'. */
module CStrings {

  /** The index of the first NUL of s, that is, the length of the C string at its start. */
  function NulIndex(s: seq<char>): (k: nat)
    requires '\0' in s
    ensures k < |s| && s[k] == '\0'
    ensures forall i :: 0 <= i < k ==> s[i] != '\0'
  {
    if s[0] == '\0' then 0 else 1 + NulIndex(s[1..])
  }

  /** The C string stored at the start of s, without its terminator. */
  function CStr(s: seq<char>): (r: seq<char>)
    requires '\0' in s
    ensures '\0' !in r
    ensures |r| < |s| && s[|r|] == '\0' && r == s[..|r|]
  {
    s[..NulIndex(s)]
  }

  /** The characters of `a` from index `start` on spell the C string w followed by its terminator. */
  predicate HoldsCStr(a: seq<char>, start: int, w: seq<char>)
  {
    0 <= start && start + |w| < |a| && a[start..start + |w|] == w && a[start + |w|] == '\0'
  }

  /** A NUL-free w stored with its terminator at `start` is exactly the C string read from there. */
  lemma HoldsCStrIsCStr(a: seq<char>, start: int, w: seq<char>)
    requires HoldsCStr(a, start, w) && '\0' !in w
    ensures 0 <= start < |a| && '\0' in a[start..] && CStr(a[start..]) == w
  {
    var t := a[start..];
    assert t[|w|] == '\0';
    assert t[..|w|] == w;
  }

  /** `str_len`: counts the characters before the terminator. */
  method StrLen(s: seq<char>) returns (n: nat)
    requires '\0' in s
    ensures n == |CStr(s)|
    ensures s[..n] == CStr(s) && s[n] == '\0'
  {
    n := 0;
    while s[n] != '\0'
      invariant n <= NulIndex(s)
      invariant '\0' !in s[..n]
      decreases NulIndex(s) - n
    {
      n := n + 1;
    }
  }
}
