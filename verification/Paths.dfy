/** Slash-separated paths, as internal/namenode/metadata.go compares and rewrites them. */
module Paths {

  predicate HasPrefix(s: string, prefix: string) {
    |s| >= |prefix| && s[..|prefix|] == prefix
  }

  /** p lies strictly below dir. */
  predicate Below(p: string, dir: string) {
    HasPrefix(p, dir + "/")
  }

  predicate Under(p: string, dir: string) {
    p == dir || Below(p, dir)
  }

  /** CheckNamespace for the namespace of a token; "" grants nothing. */
  predicate Allowed(ns: string, path: string) {
    ns != "" && (path == ns || (HasPrefix(path, ns) && |path| > |ns| && path[|ns|] == '/'))
  }

  lemma BelowIff(p: string, dir: string)
    ensures Below(p, dir) <==> HasPrefix(p, dir) && |p| > |dir| && p[|dir|] == '/'
  {
    if |p| > |dir| {
      assert p[..|dir| + 1] == p[..|dir|] + [p[|dir|]];
      assert (dir + "/")[..|dir|] == dir && (dir + "/")[|dir|] == '/';
    }
  }

  /** The namespace check is containment in a subtree, never a bare string prefix. */
  lemma AllowedIff(ns: string, path: string)
    ensures Allowed(ns, path) <==> ns != "" && Under(path, ns)
  {
    BelowIff(path, ns);
  }

  lemma BelowTrans(p: string, q: string, r: string)
    requires Under(p, q) && Under(q, r)
    ensures Under(p, r)
    ensures p != q || q != r ==> Below(p, r)
  {
    BelowIff(p, q);
    BelowIff(q, r);
    BelowIff(p, r);
    if p != q && q != r {
      assert p[..|r|] == p[..|q|][..|r|];
    }
  }

  /** Two directories with a common descendant are nested. */
  lemma CommonDescendant(p: string, a: string, b: string)
    requires Under(p, a) && Under(p, b)
    ensures Under(a, b) || Under(b, a)
  {
    BelowIff(p, a);
    BelowIff(p, b);
    BelowIff(a, b);
    BelowIff(b, a);
    if |a| <= |b| {
      assert b[..|a|] == p[..|b|][..|a|] == p[..|a|];
      if |a| < |b| { assert p[..|b|][|a|] == p[|a|]; }
    } else {
      assert a[..|b|] == p[..|a|][..|b|] == p[..|b|];
      assert p[..|a|][|b|] == p[|b|];
    }
  }

  /** The path p takes when the directory src is renamed to dst. */
  function Move(p: string, src: string, dst: string): (q: string) {
    if |p| >= |src| then dst + p[|src|..] else dst
  }

  lemma MoveBelow(p: string, src: string, dst: string)
    requires Below(p, src)
    ensures Below(Move(p, src, dst), dst)
    ensures Move(Move(p, src, dst), dst, src) == p
    ensures Move(p, src, dst) == dst + "/" + p[|src| + 1..]
  {
    BelowIff(p, src);
    var q := Move(p, src, dst);
    assert p[|src|..] == "/" + p[|src| + 1..];
    BelowIff(q, dst);
    assert q[|dst|..] == p[|src|..];
    assert p == src + p[|src|..];
  }
}
