// What comparing literal bytes without regard to case does to patterns: which
// of them it makes ambiguous, and that without such patterns it leads to one
// child at most.
module CaseFolding {
  import opened Patterns
  import opened RouteTree
  import opened RouteSet
  import opened TreeInsert
  import opened TreeLookup

  const UPPER := "ABCDEFGHIJKLMNOPQRSTUVWXYZ"
  const LOWER := "abcdefghijklmnopqrstuvwxyz"

  // Bytes are the same up to case if they are the same letter of the alphabet,
  // and no others are.
  lemma FoldMeans(a: char, b: char)
    ensures FoldEq(a, b, false) <==> a == b
    ensures FoldEq(a, b, true) <==>
              a == b || exists k | 0 <= k < 26 :: (a == UPPER[k] || a == LOWER[k]) && (b == UPPER[k] || b == LOWER[k])
  {
    assert forall k | 0 <= k < 26 :: UPPER[k] as int == 65 + k && LOWER[k] as int == 97 + k;
    assert forall k | 0 <= k < 26 :: Lower(UPPER[k]) == LOWER[k] && Lower(LOWER[k]) == LOWER[k];
    if FoldEq(a, b, true) && a != b {
      var k := Lower(a) as int - 97;
      assert 0 <= k < 26;
      assert (a == UPPER[k] || a == LOWER[k]) && (b == UPPER[k] || b == LOWER[k]);
    }
  }

  // ---- What folding makes a pattern describe ----

  lemma FoldTail(path: string, k: nat, t: string, ci: bool)
    requires k <= |path|
    ensures PrefixMatch(path, path[..k] + t, ci) <==> PrefixMatch(path[k..], t, ci)
  {
    var s := path[..k] + t;
    if |s| == |path| {
      assert forall i | 0 <= i < |t| :: t[i] == s[k + i] && path[k..][i] == path[k + i];
      assert forall i | k <= i < |path| :: path[i] == path[k..][i - k] && s[i] == t[i - k];
    }
  }

  lemma FoldHead(path: string, c: char, t: string, ci: bool)
    ensures PrefixMatch(path, [c] + t, ci) <==> path != "" && FoldEq(path[0], c, ci) && PrefixMatch(path[1..], t, ci)
  {
    if |path| == |t| + 1 {
      assert path == [path[0]] + path[1..];
    }
  }

  // A pattern describes a path exactly if its parameters may hold what stands in
  // their places there, and written in, as it is, that gives the path, up to
  // the case of the literal bytes.
  lemma {:induction false} DescribesIff(p: string, path: string, ci: bool, compile: Compiler)
    ensures Describes(p, path, ci, compile) <==>
              Binds(p, Captures(p, path), compile) && PrefixMatch(path, Substitute(p, Captures(p, path)), ci)
    decreases |p|
  {
    hide GoodToken, TokenName, PrefixMatch;
    match Uncons(p)
    case End => FoldNothing(path, ci);
    case Named(token, rest) =>
      var e := SegmentEnd(path);
      DescribesIff(rest, path[e..], ci, compile);
      NamedIff(p, path, ci, compile);
    case CatchAll(_) => FoldNothing(path, ci);
    case Literal(c, rest) =>
      FoldHead(path, c, Substitute(rest, Captures(p, path)), ci);
      if path != "" { DescribesIff(rest, path[1..], ci, compile); }
  }

  lemma FoldNothing(path: string, ci: bool)
    ensures PrefixMatch(path, path, ci) && (PrefixMatch(path, "", ci) <==> path == "")
  {
  }

  lemma NamedIff(p: string, path: string, ci: bool, compile: Compiler)
    requires Uncons(p).Named?
    ensures var Named(token, rest) := Uncons(p);
            var e := SegmentEnd(path);
            var caps := Captures(rest, path[e..]);
            && (Binds(p, Captures(p, path), compile) <==> Takes(token, path[..e], compile) && Binds(rest, caps, compile))
            && (PrefixMatch(path, Substitute(p, Captures(p, path)), ci) <==> PrefixMatch(path[e..], Substitute(rest, caps), ci))
  {
    hide Takes, PrefixMatch, Uncons, TokenName;
    var e := SegmentEnd(path);
    var rest := Uncons(p).rest;
    var all, caps := Captures(p, path), Captures(rest, path[e..]);
    assert all[0].value == path[..e] && all[1..] == caps && '/' !in path[..e];
    FoldTail(path, e, Substitute(rest, caps), ci);
  }

  // ---- Ambiguous patterns ----

  // Two patterns that first differ in two bytes that are the same up to case.
  predicate CaseClash(p: string, q: string)
    decreases |p|
  {
    match (Uncons(p), Uncons(q))
    case (Named(s, p'), Named(t, q')) => s == t && CaseClash(p', q')
    case (Literal(c, p'), Literal(d, q')) => if c == d then CaseClash(p', q') else FoldEq(c, d, true)
    case _ => false
  }

  lemma {:induction false} CaseClashSymmetric(p: string, q: string)
    ensures CaseClash(p, q) == CaseClash(q, p)
    decreases |p|
  {
    match (Uncons(p), Uncons(q))
    case (Named(s, p'), Named(t, q')) => if s == t { CaseClashSymmetric(p', q'); }
    case (Literal(c, p'), Literal(d, q')) => if c == d { CaseClashSymmetric(p', q'); }
    case _ =>
  }

  // Among patterns that may be registered together and are not ambiguous, those
  // that describe the same path are always ranked, one way only.
  lemma {:induction false} DescribedRanked(p: string, q: string, path: string, ci: bool, compile: Compiler)
    requires !Conflict(p, q) && Describes(p, path, ci, compile) && Describes(q, path, ci, compile)
    requires ci ==> !CaseClash(p, q)
    ensures Prefers(p, q) != Prefers(q, p)
    decreases |p|
  {
    match (Uncons(p), Uncons(q))
    case (Named(s, p'), Named(t, q')) => DescribedRanked(p', q', path[SegmentEnd(path)..], ci, compile);
    case (Literal(c, p'), Literal(d, q')) => DescribedRanked(p', q', path[1..], ci, compile);
    case _ =>
  }

  // ---- Ambiguous patterns and ambiguous nodes ----

  lemma {:induction false} PlainClash(u: string, s: string, t: string)
    requires Plain(u) && NoStar(s) && NoStar(t)
    ensures CaseClash(u + s, u + t) == CaseClash(s, t)
    decreases |u|
  {
    if u == "" {
      assert u + s == s && u + t == t;
    } else {
      UnconsPlain(u, s);
      UnconsPlain(u, t);
      PlainClash(u[1..], s, t);
    }
  }

  lemma TokenClash(token: string, s: string, t: string)
    requires IsToken(token) && '/' !in token && (s == "" || s[0] == '/') && (t == "" || t[0] == '/')
    ensures CaseClash(token + s, token + t) == CaseClash(s, t)
  {
    UnconsToken(token, s);
    UnconsToken(token, t);
  }

  lemma HeadsClash(s: string, t: string)
    requires s != "" && t != "" && s[0] != t[0] && !IsMark(s[0]) && !IsMark(t[0]) && FoldEq(s[0], t[0], true)
    ensures CaseClash(s, t)
  {
    PlainHead(s);
    PlainHead(t);
  }

  lemma PlainHead(s: string)
    requires s != "" && !IsMark(s[0])
    ensures Uncons(s).Literal? || (Uncons(s).CatchAll? && s[0] == '/')
    ensures Uncons(s).Literal? ==> Uncons(s).c == s[0]
  {
    var e := SegmentEnd(s);
    if e > 0 { assert s[..e][0] == s[0]; }
  }

  // No two of its routes are ambiguous.
  ghost predicate Unclashing(n: Tree) {
    forall s, x, t, y :: HasRoute(n, s, x) && HasRoute(n, t, y) ==> !CaseClash(s, t)
  }

  // Two routes that go on below `n` clash as they do there.
  lemma ClashBelowSame(n: Tree, prefix: string, s: string, x: Handler, t: string, y: Handler, compile: Compiler)
    requires WellFormed(n, prefix, compile) && Below(n, s, x) && Below(n, t, y)
    ensures HasRoute(n, n.path + s, x) && HasRoute(n, n.path + t, y)
    ensures CaseClash(n.path + s, n.path + t) == CaseClash(s, t)
  {
    Cut(n.path, s);
    Cut(n.path, t);
    var j := RouteChild(n, prefix, s, x, compile);
    var k := RouteChild(n, prefix, t, y, compile);
    WildKinds(n, prefix, compile);
    if TokenKind(n) {
      WholeToken(n, prefix, compile);
      TokenClash(n.path, s, t);
    } else {
      ClashStatic(n, prefix, s, t, compile);
    }
  }

  lemma ClashStatic(n: Tree, prefix: string, s: string, t: string, compile: Compiler)
    requires WellFormed(n, prefix, compile) && StaticKind(n) && NoStar(s) && NoStar(t)
    ensures CaseClash(n.path + s, n.path + t) == CaseClash(s, t)
  {
    PlainText(n, prefix, compile);
    PlainClash(n.path, s, t);
  }

  // Two children that the same byte leads to hold ambiguous routes.
  lemma IndicesClash(n: Tree, prefix: string, i: nat, j: nat, compile: Compiler)
    requires WellFormed(n, prefix, compile) && i < j < |n.indices| <= |n.children| && FoldEq(n.indices[i], n.indices[j], true)
    ensures !Unclashing(n)
  {
    IndicesDiffer(n, prefix, i, j, compile);
    hide *;
    var s, x := IndexRoute(n, prefix, i, compile);
    var t, y := IndexRoute(n, prefix, j, compile);
    HeadsClash(s, t);
    ClashBelowSame(n, prefix, s, x, t, y, compile);
    RoutesClash(n, n.path + s, x, n.path + t, y);
  }

  lemma IndicesDiffer(n: Tree, prefix: string, i: nat, j: nat, compile: Compiler)
    requires WellFormed(n, prefix, compile) && i < j < |n.indices|
    ensures StaticKind(n) && n.indices[i] != n.indices[j]
  {
  }

  lemma RoutesClash(n: Tree, s: string, x: Handler, t: string, y: Handler)
    requires HasRoute(n, s, x) && HasRoute(n, t, y) && CaseClash(s, t)
    ensures !Unclashing(n)
  {
  }

  // Some route below the child at an index.
  lemma IndexRoute(n: Tree, prefix: string, i: nat, compile: Compiler) returns (s: string, x: Handler)
    requires WellFormed(n, prefix, compile) && StaticKind(n) && i < |n.indices| <= |n.children|
    ensures Below(n, s, x) && s != "" && s[0] == n.indices[i] && !IsMark(s[0])
  {
    ChildWellFormed(n, prefix, i, compile);
    s, x := SomeRoute(n.children[i], prefix + n.path, compile);
    ChildRouteOwns(n, prefix, i, s, x, compile);
    assert !IsMark(n.indices[i]);
  }

  lemma ChildUnclashing(n: Tree, prefix: string, j: nat, compile: Compiler)
    requires WellFormed(n, prefix, compile) && Unclashing(n) && j < |n.children|
    ensures Unclashing(n.children[j])
  {
    hide WellFormed;
    var c := n.children[j];
    forall s, x, t, y | HasRoute(c, s, x) && HasRoute(c, t, y) ensures !CaseClash(s, t) {
      assert Below(n, s, x) && Below(n, t, y);
      ClashBelowSame(n, prefix, s, x, t, y, compile);
    }
  }

  lemma {:induction false} UnclashingOneWay(n: Tree, prefix: string, compile: Compiler)
    requires WellFormed(n, prefix, compile) && Unclashing(n)
    ensures OneWay(n, true)
    decreases n
  {
    WellFormedShape(n, prefix, compile);
    forall i, j | 0 <= i < j < |n.indices| ensures !FoldEq(n.indices[i], n.indices[j], true) {
      if FoldEq(n.indices[i], n.indices[j], true) { IndicesClash(n, prefix, i, j, compile); }
    }
    forall j | 0 <= j < |n.children| ensures OneWay(n.children[j], true) {
      if !Spare(n, j) {
        ChildUnclashing(n, prefix, j, compile);
        UnclashingOneWay(n.children[j], prefix + n.path, compile);
      }
    }
  }
}
