/**
 Path strings: how resolve_path cuts them into names, and walks over names.
 */
module PathText {
  import opened Bytes
  import opened CStrings

  const SLASH: byte := 47
  const NAME_MAX: nat := 31            // resolve_path keeps 31 characters and a terminator

  type Name = seq<byte>

  /** Characters of `path` before a slash, the end, or the 31-character limit, counting from i. */
  function Span(path: seq<byte>, i: nat): (k: nat)
    requires i <= |path| && i <= NAME_MAX
    ensures i <= k <= |path| && k <= NAME_MAX
    ensures forall j :: i <= j < k ==> path[j] != SLASH
    ensures k < |path| && k < NAME_MAX ==> path[k] == SLASH
    decreases NAME_MAX - i
  {
    if i < |path| && path[i] != SLASH && i < NAME_MAX then Span(path, i + 1) else i
  }

  /** What is left after a name of k characters and one slash, if there is one. */
  function AfterName(path: seq<byte>, k: nat): seq<byte>
    requires k <= |path|
  {
    if k < |path| && path[k] == SLASH then path[k + 1..] else path[k..]
  }

  /** The names resolve_path looks up, one per turn of its outer loop. */
  function Tokens(path: seq<byte>): seq<Name>
    decreases |path|
  {
    if path == [] then []
    else
      var k := Span(path, 0);
      [path[..k]] + Tokens(AfterName(path, k))
  }

  lemma {:induction false} SpanPrefix(p: seq<byte>, q: seq<byte>, i: nat)
    requires i <= |p| && i <= NAME_MAX && q != [] && q[0] == SLASH
    ensures Span(p + q, i) == Span(p, i)
    decreases NAME_MAX - i
  {
    if i < |p| && p[i] != SLASH && i < NAME_MAX {
      SpanPrefix(p, q, i + 1);
    }
  }

  lemma TokensUnfold(path: seq<byte>)
    requires path != []
    ensures Tokens(path) == [path[..Span(path, 0)]] + Tokens(AfterName(path, Span(path, 0)))
  {
  }

  lemma AfterJoin(p: seq<byte>, tail: seq<byte>, k: nat)
    requires k <= |p| && tail != [] && tail[0] == SLASH
    ensures (p + tail)[..k] == p[..k]
    ensures AfterName(p + tail, k) == if k == |p| then tail[1..] else AfterName(p, k) + tail
    ensures k == |p| ==> AfterName(p, k) == []
    ensures k < |p| && p[|p| - 1] != SLASH ==>
              var rest := AfterName(p, k); rest != [] && rest[|rest| - 1] != SLASH
    ensures |AfterName(p, k)| <= |p| - k
    ensures k < |p| && p[k] == SLASH ==> |AfterName(p, k)| < |p| - k
  {
    if k == |p| {
      assert (p + tail)[k] == SLASH && (p + tail)[k + 1..] == tail[1..];
    } else {
      assert (p + tail)[k] == p[k];
      assert (p + tail)[k + 1..] == p[k + 1..] + tail && (p + tail)[k..] == p[k..] + tail;
    }
  }

  lemma {:induction false} TokensOfTail(p: seq<byte>, tail: seq<byte>)
    requires p != [] && p[|p| - 1] != SLASH && tail != [] && tail[0] == SLASH
    ensures Tokens(p + tail) == Tokens(p) + Tokens(tail[1..])
    decreases |p|
  {
    hide Tokens, AfterName, Span;
    var k := Span(p, 0);
    var rest := AfterName(p, k);
    SpanPrefix(p, tail, 0);
    AfterJoin(p, tail, k);
    TokensUnfold(p);
    TokensUnfold(p + tail);
    if k == |p| {
      NoTokens();
    } else {
      TokensOfTail(rest, tail);
      assert [p[..k]] + (Tokens(rest) + Tokens(tail[1..])) == [p[..k]] + Tokens(rest) + Tokens(tail[1..]);
    }
  }

  lemma NoTokens()
    ensures Tokens([]) == []
  {
  }

  /**
   Cutting distributes over a slash: the names of p/q are the names of p followed by
   those of q, for any p that neither is empty nor ends in a slash.
   */
  lemma TokensOfJoin(p: seq<byte>, q: seq<byte>)
    requires p != [] && p[|p| - 1] != SLASH
    ensures Tokens(p + [SLASH] + q) == Tokens(p) + Tokens(q)
  {
    hide Tokens;
    TokensOfTail(p, [SLASH] + q);
    assert p + [SLASH] + q == p + ([SLASH] + q) && ([SLASH] + q)[1..] == q;
  }

  /** A name resolve_path handles whole. */
  predicate Component(c: Name) {
    1 <= |c| <= NAME_MAX && (forall i :: 0 <= i < |c| ==> c[i] != SLASH && c[i] != 0)
  }

  lemma TokensOfComponent(c: Name)
    requires Component(c)
    ensures Tokens(c) == [c]
  {
    var k := Span(c, 0);
    assert k == |c|;
    assert c[..k] == c && AfterName(c, k) == [];
    assert Tokens([]) == [];
  }

  /** c1/c2/.../cn */
  function Relative(cs: seq<Name>): seq<byte> {
    if cs == [] then [] else if |cs| == 1 then cs[0] else Relative(cs[..|cs| - 1]) + [SLASH] + cs[|cs| - 1]
  }

  ghost predicate Components(cs: seq<Name>) { forall c :: c in cs ==> Component(c) }

  lemma {:induction false} RelativeShape(cs: seq<Name>)
    requires cs != [] && Components(cs)
    ensures Relative(cs) != [] && NulFree(Relative(cs))
    ensures Relative(cs)[0] != SLASH && Relative(cs)[|Relative(cs)| - 1] != SLASH
    decreases |cs|
  {
    assert cs[|cs| - 1] in cs;
    if |cs| > 1 {
      RelativeShape(cs[..|cs| - 1]);
    }
  }

  lemma {:induction false} TokensOfRelative(cs: seq<Name>)
    requires cs != [] && Components(cs)
    ensures Tokens(Relative(cs)) == cs
    decreases |cs|
  {
    hide Tokens, Component;
    var last := cs[|cs| - 1];
    assert last in cs;
    TokensOfComponent(last);
    if |cs| > 1 {
      var init := cs[..|cs| - 1];
      RelativeShape(init);
      TokensOfRelative(init);
      TokensOfJoin(Relative(init), last);
      assert cs == init + [last];
    } else {
      assert cs == [last];
    }
  }

  // ---------------------------------------------------------------- walks

  /** Follow names from an inode; 0 means not found and absorbs. */
  ghost function Walk(find: (nat, Name) -> nat, from: nat, names: seq<Name>): nat
    decreases |names|
  {
    if names == [] || from == 0 then from else Walk(find, find(from, names[0]), names[1..])
  }

  lemma {:induction false} WalkAppend(find: (nat, Name) -> nat, from: nat, a: seq<Name>, b: seq<Name>)
    ensures Walk(find, from, a + b) == Walk(find, Walk(find, from, a), b)
    decreases |a|
  {
    if a == [] {
      assert a + b == b;
    } else if from != 0 {
      assert (a + b)[0] == a[0] && (a + b)[1..] == a[1..] + b;
      WalkAppend(find, find(from, a[0]), a[1..], b);
    }
  }

  const ROOT: nat := 2

  function Strip(path: seq<byte>): seq<byte> { if path != [] && path[0] == SLASH then path[1..] else path }

  /** resolve_path: the left fold of directory lookup over the names of the path. */
  ghost function Resolve(find: (nat, Name) -> nat, path: seq<byte>): nat {
    if path == [] then 0 else Walk(find, ROOT, Tokens(Strip(path)))
  }

  /** The empty path leads nowhere, "/" to inode 2. */
  lemma ResolveRoot(find: (nat, Name) -> nat)
    ensures Resolve(find, []) == 0 && Resolve(find, [47]) == 2
  {
    assert Strip([47]) == [];
    NoTokens();
  }

  /** A name of more than 31 characters is cut after the 31st, and what follows is taken for another name. */
  lemma LongNameIsCut(c: Name)
    requires 31 < |c| <= 62 && forall i :: 0 <= i < |c| ==> c[i] != SLASH
    ensures Tokens(c) == [c[..31], c[31..]]
  {
    var k := Span(c, 0);
    assert k == 31 && AfterName(c, k) == c[31..];
    var rest := c[31..];
    assert Span(rest, 0) == |rest| && AfterName(rest, |rest|) == [] && rest[..|rest|] == rest;
    assert Tokens(rest) == [rest] + Tokens([]);
  }

  /** resolving p/q is resolving q's names from where p leads */
  lemma ResolveJoin(find: (nat, Name) -> nat, p: seq<byte>, q: seq<byte>)
    requires p != [] && p[|p| - 1] != SLASH
    ensures Resolve(find, p + [SLASH] + q) == Walk(find, Resolve(find, p), Tokens(q))
  {
    var s := Strip(p);
    assert s != [] && s[|s| - 1] != SLASH;
    assert Strip(p + [SLASH] + q) == s + [SLASH] + q;
    TokensOfJoin(s, q);
    WalkAppend(find, ROOT, Tokens(s), Tokens(q));
  }

  /** one trailing slash makes no difference */
  lemma ResolveTrailingSlash(find: (nat, Name) -> nat, p: seq<byte>)
    requires p != [] && p[|p| - 1] != SLASH
    ensures Resolve(find, p + [SLASH]) == Resolve(find, p)
  {
    ResolveJoin(find, p, []);
    assert p + [SLASH] + [] == p + [SLASH];
    assert Tokens([]) == [];
  }

  /** one leading slash makes no difference to a nonempty relative path */
  lemma ResolveLeadingSlash(find: (nat, Name) -> nat, p: seq<byte>)
    requires p != [] && p[0] != SLASH
    ensures Resolve(find, [SLASH] + p) == Resolve(find, p)
  {
    assert Strip([SLASH] + p) == p == Strip(p);
  }

  /** Over proper components, resolution is the fold over the components. */
  lemma ResolveComponents(find: (nat, Name) -> nat, cs: seq<Name>)
    requires cs != [] && Components(cs)
    ensures Resolve(find, Relative(cs)) == Walk(find, ROOT, cs)
    ensures Resolve(find, [SLASH] + Relative(cs)) == Walk(find, ROOT, cs)
  {
    hide Tokens, Walk, Relative;
    RelativeShape(cs);
    TokensOfRelative(cs);
    ResolveLeadingSlash(find, Relative(cs));
  }

  // ---------------------------------------------------------------- absolute paths

  /** The string of an absolute path: "/" for the root, else "/c1/.../cn". */
  function Absolute(cs: seq<Name>): seq<byte> { [SLASH] + Relative(cs) }

  /** Leading slash, no empty name, no trailing slash except for the root itself. */
  ghost predicate Normalised(s: seq<byte>) {
    && s != [] && s[0] == SLASH && NulFree(s)
    && (forall i :: 0 < i < |s| ==> !(s[i - 1] == SLASH && s[i] == SLASH))
    && (|s| > 1 ==> s[|s| - 1] != SLASH)
  }

  lemma {:induction false} AbsoluteIsNormalised(cs: seq<Name>)
    requires Components(cs)
    ensures Normalised(Absolute(cs))
    decreases |cs|
  {
    if cs != [] {
      var init, last := cs[..|cs| - 1], cs[|cs| - 1];
      assert last in cs;
      RelativeShape(cs);
      AbsoluteIsNormalised(init);
      if init != [] {
        RelativeShape(init);
        var a := Absolute(init);
        var s := Absolute(cs);
        assert s == a + [SLASH] + last;
        forall i | 0 < i < |s| ensures !(s[i - 1] == SLASH && s[i] == SLASH) {
          if i < |a| {
            assert s[i] == a[i] && s[i - 1] == a[i - 1];
          } else if i > |a| {
            assert s[i] == last[i - |a| - 1];
          }
        }
      }
    }
  }

  /** Resolving the string of an absolute path follows its components from the root. */
  lemma ResolveAbsolute(find: (nat, Name) -> nat, cs: seq<Name>)
    requires Components(cs)
    ensures Resolve(find, Absolute(cs)) == Walk(find, ROOT, cs)
  {
    if cs == [] {
      assert Absolute(cs) == [SLASH] && Strip([SLASH]) == [];
      NoTokens();
    } else {
      ResolveComponents(find, cs);
    }
  }
}
