/**
 NUL-terminated strings.  A string is a byte sequence that is followed by a NUL byte;
 a NUL inside the sequence ends it early.
 */
module CStrings {
  import opened Bytes

  /** Character i, the terminator at and beyond the end. */
  function At(s: seq<byte>, i: nat): byte { if i < |s| then s[i] else 0 }

  /** The text before the first NUL. */
  function CStr(s: seq<byte>): seq<byte> {
    if s == [] || s[0] == 0 then [] else [s[0]] + CStr(s[1..])
  }

  predicate NulFree(s: seq<byte>) { forall i :: 0 <= i < |s| ==> s[i] != 0 }

  lemma {:induction false} CStrLength(s: seq<byte>)
    ensures |CStr(s)| <= |s| && CStr(s) == s[..|CStr(s)|] && NulFree(CStr(s))
    ensures At(s, |CStr(s)|) == 0
  {
    if s != [] && s[0] != 0 {
      CStrLength(s[1..]);
    }
  }

  lemma CStrOfNulFree(s: seq<byte>)
    ensures NulFree(s) <==> CStr(s) == s
  {
    CStrLength(s);
  }

  /** CStr is the only NUL-free prefix that stops at a NUL. */
  lemma {:induction false} CStrIs(s: seq<byte>, n: nat)
    requires n <= |s| && NulFree(s[..n]) && At(s, n) == 0
    ensures CStr(s) == s[..n]
  {
    if n > 0 {
      assert s[0] == s[..n][0];
      assert s[1..][..n - 1] == s[..n][1..];
      CStrIs(s[1..], n - 1);
    }
  }

  method Strlen(s: seq<byte>) returns (n: nat)
    ensures n == |CStr(s)|
  {
    n := 0;
    while At(s, n) != 0
      invariant 0 <= n <= |s| && NulFree(s[..n])
      decreases |s| - n
    {
      n := n + 1;
    }
    CStrIs(s, n);
  }

  /** Zero exactly for equal strings. */
  method Strcmp(a: seq<byte>, b: seq<byte>) returns (r: int)
    ensures r == 0 <==> CStr(a) == CStr(b)
  {
    var i := 0;
    while At(a, i) != 0 && At(a, i) == At(b, i)
      invariant 0 <= i <= |a| && i <= |b| && a[..i] == b[..i] && NulFree(a[..i])
      decreases |a| - i
    {
      i := i + 1;
    }
    r := At(a, i) as int - At(b, i) as int;
    CStrLength(a);
    CStrLength(b);
    if r == 0 {
      CStrIs(a, i);
      CStrIs(b, i);
    } else if CStr(a) == CStr(b) {
      SameUpTo(a, b, i);
    }
  }

  /** Strings equal as C strings agree at every position up to their common terminator. */
  lemma {:induction false} SameUpTo(a: seq<byte>, b: seq<byte>, i: nat)
    requires CStr(a) == CStr(b) && i <= |a| && NulFree(a[..i])
    ensures At(a, i) == At(b, i)
  {
    if i > 0 {
      assert a[0] == a[..i][0];
      assert a[1..][..i - 1] == a[..i][1..];
      assert CStr(a)[0] == a[0] && CStr(a)[1..] == CStr(a[1..]);
      assert CStr(b)[0] == b[0] && CStr(b)[1..] == CStr(b[1..]);
      SameUpTo(a[1..], b[1..], i - 1);
    }
  }

  /** strncmp over the n bytes of `a`: zero exactly when they match the start of b, up to a common NUL. */
  method Strncmp(a: seq<byte>, b: seq<byte>) returns (r: int)
    ensures NulFree(b) && |b| == |a| ==> (r == 0 <==> a == b)
  {
    var i := 0;
    while i < |a|
      invariant 0 <= i <= |a| && i <= |b| && a[..i] == b[..i]
    {
      if a[i] != At(b, i) {
        return a[i] as int - At(b, i) as int;
      }
      if a[i] == 0 {
        return 0;
      }
      i := i + 1;
    }
    return 0;
  }
}
