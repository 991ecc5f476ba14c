// Lookups with case folding: what is found is always a registered route whose
// pattern, with the captures written in, is the path up to case; but of two
// children that match a byte only the first is tried, so of two ambiguous
// routes one is never found.
module FoldedLookup {
  import opened Wrappers
  import opened Patterns
  import opened PatternPieces
  import opened RouteTree
  import opened RouteSet
  import opened TreeInsert
  import opened TreeLookup
  import opened CaseFolding
  import opened Registration

  // `s` is a route with this handler, and these captures spell the path out.
  ghost predicate SpelledBy(n: Tree, s: string, h: Handler, caps: seq<Param>, path: string, ci: bool, compile: Compiler) {
    HasRoute(n, s, h) && Binds(s, caps, compile) && PrefixMatch(path, Substitute(s, caps), ci)
  }

  // ---- Text in front of a pattern, and of a path ----

  lemma {:induction false} PlainSpells(u: string, s: string, caps: seq<Param>, compile: Compiler)
    requires Plain(u) && NoStar(s)
    ensures Binds(u + s, caps, compile) == Binds(s, caps, compile) && Substitute(u + s, caps) == u + Substitute(s, caps)
    decreases |u|
  {
    hide Binds, Substitute, Uncons, Plain, NoStar;
    if u == "" {
      assert u + s == s && u + Substitute(s, caps) == Substitute(s, caps);
    } else {
      PlainTail(u, s);
      LiteralSpells(u[0], u[1..] + s, u + s, caps, compile);
      PlainSpells(u[1..], s, caps, compile);
      HeadBack(u, Substitute(s, caps));
    }
  }

  lemma PlainTail(u: string, s: string)
    requires Plain(u) && u != "" && NoStar(s)
    ensures Plain(u[1..]) && Uncons(u + s) == Literal(u[0], u[1..] + s)
  {
    UnconsPlain(u, s);
  }

  lemma HeadBack(u: string, t: string)
    requires u != ""
    ensures [u[0]] + (u[1..] + t) == u + t
  {
  }

  lemma LiteralSpells(c: char, rest: string, s: string, caps: seq<Param>, compile: Compiler)
    requires Uncons(s) == Literal(c, rest)
    ensures Binds(s, caps, compile) == Binds(rest, caps, compile) && Substitute(s, caps) == [c] + Substitute(rest, caps)
  {
    hide Uncons;
  }

  lemma FoldJoined(path: string, k: nat, u: string, t: string, ci: bool)
    requires k <= |path| && PrefixMatch(path[..k], u, ci) && PrefixMatch(path[k..], t, ci)
    ensures PrefixMatch(path, u + t, ci)
  {
    forall i | 0 <= i < |path| ensures FoldEq(path[i], (u + t)[i], ci) {
      if i < k { assert path[i] == path[..k][i]; } else { assert path[i] == path[k..][i - k]; }
    }
  }

  lemma FoldSame(s: string, ci: bool)
    ensures PrefixMatch(s, s, ci)
  {
  }

  // ---- One node ----

  // The node's own route.
  lemma OwnSpelled(n: Tree, prefix: string, path: string, ci: bool, compile: Compiler)
    requires WellFormed(n, prefix, compile) && StaticKind(n) && n.route.Some? && PrefixMatch(path, n.path, ci)
    ensures n.pattern == prefix + n.path && SpelledBy(n, n.path, n.route.value, [], path, ci, compile)
  {
    assert n.path + "" == n.path;
    PlainSpells(n.path, "", [], compile);
    assert Substitute("", []) == "" && n.path + "" == n.path;
  }

  // A route of a child is one of the node's.
  lemma ChildSpelled(n: Tree, prefix: string, j: nat, t: string, f: Found, path: string, ci: bool, compile: Compiler) returns (s: string)
    requires WellFormed(n, prefix, compile) && StaticKind(n) && j < |n.children| && |n.path| <= |path|
    requires PrefixMatch(path[..|n.path|], n.path, ci)
    requires f.pattern == prefix + n.path + t && SpelledBy(n.children[j], t, f.handler, f.caps, path[|n.path|..], ci, compile)
    ensures f.pattern == prefix + s && SpelledBy(n, s, f.handler, f.caps, path, ci, compile)
  {
    s := n.path + t;
    ChildContinues(n, prefix, j, t, f.handler, compile);
    PlainText(n, prefix, compile);
    hide WellFormed, HasRoute, Binds, Substitute, PrefixMatch;
    PlainSpells(n.path, t, f.caps, compile);
    FoldJoined(path, |n.path|, n.path, Substitute(t, f.caps), ci);
    Concat(prefix, n.path, t);
  }

  lemma ChildContinues(n: Tree, prefix: string, j: nat, s: string, h: Handler, compile: Compiler)
    requires WellFormed(n, prefix, compile) && j < |n.children| && HasRoute(n.children[j], s, h)
    ensures HasRoute(n, n.path + s, h) && NoStar(s) && (TokenKind(n) ==> s != "" && s[0] == '/')
  {
    Cut(n.path, s);
    assert Below(n, s, h);
    var k := RouteChild(n, prefix, s, h, compile);
  }

  // A parameter at the end of the path.
  lemma TokenSpelled(n: Tree, prefix: string, path: string, ci: bool, compile: Compiler)
    requires WellFormed(n, prefix, compile) && TokenKind(n) && n.route.Some? && path != "" && '/' !in path
    requires Takes(n.path, path, compile)
    ensures n.pattern == prefix + n.path
    ensures SpelledBy(n, n.path, n.route.value, [Param(TokenName(n.path), path)], path, ci, compile)
  {
    var caps := [Param(TokenName(n.path), path)];
    assert n.path + "" == n.path;
    WholeToken(n, prefix, compile);
    UnconsToken(n.path, "");
    TokenSpells(n.path, "", path, [], compile);
    assert [Param(TokenName(n.path), path)] + [] == caps && path + "" == path;
    FoldSame(path, ci);
  }

  lemma TokenSpells(token: string, s: string, segment: string, caps: seq<Param>, compile: Compiler)
    requires IsToken(token) && '/' !in token && (s == "" || s[0] == '/') && Takes(token, segment, compile) && '/' !in segment
    ensures var all := [Param(TokenName(token), segment)] + caps;
            && Binds(token + s, all, compile) == Binds(s, caps, compile)
            && Substitute(token + s, all) == segment + Substitute(s, caps)
  {
    UnconsToken(token, s);
    hide Takes;
    var all := [Param(TokenName(token), segment)] + caps;
    assert all[1..] == caps && all[0].value == segment;
  }

  // A parameter and what follows it.
  lemma FollowSpelled(n: Tree, prefix: string, t: string, f: Found, path: string, e: nat, ci: bool, compile: Compiler) returns (s: string)
    requires WellFormed(n, prefix, compile) && TokenKind(n) && n.children != [] && e <= |path| && '/' !in path[..e]
    requires Takes(n.path, path[..e], compile)
    requires f.pattern == prefix + n.path + t && SpelledBy(n.children[0], t, f.handler, f.caps, path[e..], ci, compile)
    ensures f.pattern == prefix + s
    ensures SpelledBy(n, s, f.handler, [Param(TokenName(n.path), path[..e])] + f.caps, path, ci, compile)
  {
    s := n.path + t;
    ChildContinues(n, prefix, 0, t, f.handler, compile);
    WholeToken(n, prefix, compile);
    hide WellFormed, HasRoute, Binds, Substitute, PrefixMatch, Takes, TokenName;
    TokenSpells(n.path, t, path[..e], f.caps, compile);
    FoldSame(path[..e], ci);
    FoldJoined(path, e, path[..e], Substitute(t, f.caps), ci);
    Concat(prefix, n.path, t);
  }

  // A catch-all takes the rest.
  lemma LeafSpelled(n: Tree, prefix: string, path: string, ci: bool, compile: Compiler)
    requires WellFormed(n, prefix, compile) && n.nType == WildcardNode && n.route.Some? && path != "" && path[0] == '/'
    ensures |n.path| >= 2 && n.pattern == prefix + n.path
    ensures SpelledBy(n, n.path, n.route.value, [Param(n.path[2..], path)], path, ci, compile)
  {
    assert Uncons(n.path) == CatchAll(n.path);
    FoldSame(path, ci);
  }

  // ---- The lookup ----

  lemma {:induction false} SearchSpelled(n: Tree, prefix: string, path: string, ci: bool, last: bool, compile: Compiler) returns (s: string)
    requires WellFormed(n, prefix, compile) && Walkable(n) && StaticKind(n)
    requires CatchAllParent(n) ==> path == "" || path[0] == '/'
    ensures var o := Search(n, path, ci, last);
            o.Hit? ==> o.found.pattern == prefix + s && SpelledBy(n, s, o.found.handler, o.found.caps, path, ci, compile)
    decreases n
  {
    s := n.path;
    hide Binds, Substitute, HasRoute;
    if |path| > |n.path| && PrefixMatch(path[..|n.path|], n.path, ci) {
      s := BelowSpelled(n, prefix, path, ci, last, compile);
    } else if PrefixMatch(path, n.path, ci) && n.route.Some? {
      OwnSpelled(n, prefix, path, ci, compile);
    }
  }

  lemma {:induction false} BelowSpelled(n: Tree, prefix: string, path: string, ci: bool, last: bool, compile: Compiler) returns (s: string)
    requires WellFormed(n, prefix, compile) && Walkable(n) && StaticKind(n) && |path| > |n.path|
    requires PrefixMatch(path[..|n.path|], n.path, ci) && (CatchAllParent(n) ==> path[0] == '/')
    ensures var o := Search(n, path, ci, last);
            o.Hit? ==> o.found.pattern == prefix + s && SpelledBy(n, s, o.found.handler, o.found.caps, path, ci, compile)
    decreases n, 1
  {
    s := "";
    SearchStep(n, path, ci, last);
    var rest := path[|n.path|..];
    var j := FindIndex(n.indices, rest[0], ci);
    if n.wildChild { WildEntered(n, prefix, path, compile); }
    if j >= 0 {
      s := StaticSpelled(n, prefix, path, j, ci, last, compile);
      var o := Search(n.children[j], rest, ci, last);
      if o.Miss? && n.wildChild {
        var t := WildSpelled(Last(n.children), prefix + n.path, rest, ci, o.last, compile);
        var w := SearchWild(Last(n.children), rest, ci, o.last);
        hide *;
        s := LastSpelled(n, prefix, t, w, path, ci, compile);
      }
    } else if n.wildChild {
      var t := WildSpelled(Last(n.children), prefix + n.path, rest, ci, last, compile);
      var w := SearchWild(Last(n.children), rest, ci, last);
      hide *;
      s := LastSpelled(n, prefix, t, w, path, ci, compile);
    }
  }

  // A static child takes the next byte.
  lemma {:induction false} StaticSpelled(n: Tree, prefix: string, path: string, j: nat, ci: bool, last: bool, compile: Compiler) returns (s: string)
    requires WellFormed(n, prefix, compile) && Walkable(n) && StaticKind(n) && |path| > |n.path|
    requires PrefixMatch(path[..|n.path|], n.path, ci) && FindIndex(n.indices, path[|n.path|], ci) == j
    ensures j < |n.children| && Walkable(n.children[j])
    ensures var o := Search(n.children[j], path[|n.path|..], ci, last);
            o.Hit? ==> o.found.pattern == prefix + s && SpelledBy(n, s, o.found.handler, o.found.caps, path, ci, compile)
    decreases n, 0
  {
    s := "";
    var rest := path[|n.path|..];
    StaticEntered(n, prefix, j, rest, ci, compile);
    var t := SearchSpelled(n.children[j], prefix + n.path, rest, ci, last, compile);
    var o := Search(n.children[j], rest, ci, last);
    hide SpelledBy, WellFormed, PrefixMatch, Search, SearchWild, Walkable, CatchAllParent;
    if o.Hit? { s := ChildSpelled(n, prefix, j, t, o.found, path, ci, compile); }
  }

  // The wildcard child takes the rest.
  lemma LastSpelled(n: Tree, prefix: string, t: string, w: Outcome, path: string, ci: bool, compile: Compiler) returns (s: string)
    requires WellFormed(n, prefix, compile) && StaticKind(n) && n.children != [] && |n.path| <= |path|
    requires PrefixMatch(path[..|n.path|], n.path, ci)
    requires w.Hit? ==>
               && w.found.pattern == prefix + n.path + t
               && SpelledBy(Last(n.children), t, w.found.handler, w.found.caps, path[|n.path|..], ci, compile)
    ensures w.Hit? ==> w.found.pattern == prefix + s && SpelledBy(n, s, w.found.handler, w.found.caps, path, ci, compile)
  {
    hide SpelledBy, WellFormed, PrefixMatch;
    s := "";
    if w.Hit? { s := ChildSpelled(n, prefix, |n.children| - 1, t, w.found, path, ci, compile); }
  }

  lemma SearchStep(n: Tree, path: string, ci: bool, last: bool)
    requires Walkable(n) && |path| > |n.path| && PrefixMatch(path[..|n.path|], n.path, ci)
    ensures var rest := path[|n.path|..];
            var j := FindIndex(n.indices, rest[0], ci);
            Search(n, path, ci, last) ==
            if j >= 0 then
              var o := Search(n.children[j], rest, ci, last);
              if o.Miss? && n.wildChild then After(SearchWild(Last(n.children), rest, ci, o.last), o.saw) else o
            else if n.wildChild then SearchWild(Last(n.children), rest, ci, last)
            else Fail(rest == "/" && n.route.Some?)
  {
    hide PrefixMatch;
  }

  lemma {:induction false} WildSpelled(n: Tree, prefix: string, path: string, ci: bool, last: bool, compile: Compiler) returns (s: string)
    requires WellFormed(n, prefix, compile) && Walkable(n) && WildLocal(n) && path != ""
    requires n.nType == WildcardNode ==> path[0] == '/'
    ensures var o := SearchWild(n, path, ci, last);
            o.Hit? ==> o.found.pattern == prefix + s && SpelledBy(n, s, o.found.handler, o.found.caps, path, ci, compile)
    decreases n
  {
    s := n.path;
    hide SpelledBy, Takes;
    if n.nType == WildcardNode {
      if n.route.Some? { LeafSpelled(n, prefix, path, ci, compile); }
    } else {
      var e := SegmentEnd(path);
      assert '/' !in path[..e] && path[..|path|] == path;
      WildIs(n, prefix, path, compile);
      if Takes(n.path, path[..e], compile) {
        if e == |path| {
          if n.route.Some? { TokenSpelled(n, prefix, path, ci, compile); }
        } else if n.children != [] {
          ChildWellFormed(n, prefix, 0, compile);
          TokenChild(n, prefix, compile);
          var t := SearchSpelled(n.children[0], prefix + n.path, path[e..], ci, last, compile);
          var o := Search(n.children[0], path[e..], ci, last);
          if o.Hit? { s := FollowSpelled(n, prefix, t, o.found, path, e, ci, compile); }
        }
      }
    }
  }

  lemma TokenChild(n: Tree, prefix: string, compile: Compiler)
    requires WellFormed(n, prefix, compile) && TokenKind(n) && n.children != []
    ensures StaticKind(n.children[0])
  {
  }

  // With or without folding: what a lookup finds is a registered pair, and
  // the captures are those of the parameters the pattern is written with and,
  // in their places, give the path up to case.
  lemma FoundSpells(root: Tree, path: string, ci: bool, compile: Compiler)
    requires Registered(root, compile)
    ensures Walkable(root)
    ensures match Lookup(root, path, ci).found
            case Some(f) =>
              && HasRoute(root, f.pattern, f.handler) && Binds(f.pattern, f.caps, compile)
              && PrefixMatch(path, Substitute(f.pattern, f.caps), ci)
              && Explains(f.pattern, f.caps, Substitute(f.pattern, f.caps), compile)
            case None => true
  {
    if Fresh(root) {
      assert Search(root, path, ci, false).Miss?;
    } else {
      WellFormedWalkable(root, "", compile);
      var s := SearchSpelled(root, "", path, ci, false, compile);
      assert "" + s == s;
    }
    hide Explains, Search, Binds, Substitute, PrefixMatch, HasRoute, RootOk;
    match Lookup(root, path, ci).found
    case Some(f) =>
      RegisteredValid(root, f.pattern, f.handler, compile);
      BindingExplains(f.pattern, f.caps, compile);
    case None =>
  }

  // ---- Of two ambiguous routes one is lost ----

  // The child at `j` is tried for some byte.
  predicate Tried(n: Tree, j: nat)
    requires j < |n.children|
  {
    j < |n.indices| ==> FindIndex(n.indices, n.indices[j], true) == j
  }

  // There is a node with handler `x` and pattern `p` that a lookup can come to.
  ghost predicate Shows(n: Tree, x: Handler, p: string)
    decreases n
  {
    (n.route == Some(x) && n.pattern == p) || exists j :: 0 <= j < |n.children| && Tried(n, j) && Shows(n.children[j], x, p)
  }

  lemma FirstTried(n: Tree, b: char)
    requires |n.indices| <= |n.children|
    ensures var j := FindIndex(n.indices, b, true); j >= 0 ==> Tried(n, j)
  {
  }

  lemma {:induction false} FoundShows(n: Tree, path: string, last: bool)
    requires Walkable(n)
    ensures var o := Search(n, path, true, last); o.Hit? ==> Shows(n, o.found.handler, o.found.pattern)
    decreases n
  {
    if |path| > |n.path| {
      var rest := path[|n.path|..];
      var j := FindIndex(n.indices, rest[0], true);
      FirstTried(n, rest[0]);
      if j >= 0 {
        FoundShows(n.children[j], rest, last);
        var o := Search(n.children[j], rest, true, last);
        if o.Miss? && n.wildChild { WildShows(Last(n.children), rest, o.last); }
      } else if n.wildChild {
        WildShows(Last(n.children), rest, last);
      }
      assert n.wildChild ==> Tried(n, |n.children| - 1);
    }
  }

  lemma {:induction false} WildShows(n: Tree, path: string, last: bool)
    requires Walkable(n) && WildLocal(n) && path != ""
    ensures var o := SearchWild(n, path, true, last); o.Hit? ==> Shows(n, o.found.handler, o.found.pattern)
    decreases n
  {
    if n.nType != WildcardNode && n.children != [] && SegmentEnd(path) < |path| {
      FoundShows(n.children[0], path[SegmentEnd(path)..], last);
      ShowsBelow(n);
    }
  }

  // What the only child of a parameter shows, the parameter shows.
  lemma ShowsBelow(n: Tree)
    requires n.children != []
    ensures forall x, p :: Shows(n.children[0], x, p) ==> Shows(n, x, p)
  {
    forall x, p | Shows(n.children[0], x, p) ensures Shows(n, x, p) {
      assert Tried(n, 0);
    }
  }

  // In a well-formed tree what is shown is a route, and below `n` it is one of
  // a child that is tried.
  lemma {:induction false} ShowsRoute(n: Tree, prefix: string, x: Handler, p: string, compile: Compiler) returns (s: string)
    requires WellFormed(n, prefix, compile) && Shows(n, x, p)
    ensures HasRoute(n, s, x) && p == prefix + s
    decreases n
  {
    assert Local(n, prefix, compile);
    if n.route == Some(x) && n.pattern == p {
      s := n.path;
    } else {
      var j :| 0 <= j < |n.children| && Tried(n, j) && Shows(n.children[j], x, p);
      assert !Spare(n, j);
      var t := ShowsRoute(n.children[j], prefix + n.path, x, p, compile);
      s := n.path + t;
      Cut(n.path, t);
      Concat(prefix, n.path, t);
      assert Below(n, t, x);
    }
  }

  lemma ShownBelow(n: Tree, prefix: string, x: Handler, p: string, compile: Compiler) returns (j: nat, t: string)
    requires WellFormed(n, prefix, compile) && Shows(n, x, p) && !(n.route == Some(x) && n.pattern == p)
    ensures j < |n.children| && Tried(n, j) && Shows(n.children[j], x, p) && WellFormed(n.children[j], prefix + n.path, compile)
    ensures HasRoute(n.children[j], t, x) && Below(n, t, x) && OwnsByte(n, j, t) && p == prefix + n.path + t
  {
    j :| 0 <= j < |n.children| && Tried(n, j) && Shows(n.children[j], x, p);
    assert !Spare(n, j);
    t := ShowsRoute(n.children[j], prefix + n.path, x, p, compile);
    ChildRouteOwns(n, prefix, j, t, x, compile);
    hide OwnsByte, WellFormed, HasRoute, Tried;
    assert Below(n, t, x);
  }

  // Of two ambiguous routes of a tree one is not shown.
  lemma {:induction false} ShowsNotBoth(n: Tree, prefix: string, x: Handler, p: string, y: Handler, q: string, compile: Compiler)
    requires WellFormed(n, prefix, compile) && Shows(n, x, prefix + p) && Shows(n, y, prefix + q)
    ensures !CaseClash(p, q)
    decreases n
  {
    CaseClashSymmetric(p, q);
    if n.route == Some(x) && n.pattern == prefix + p {
      OwnNotClashing(n, prefix, p, y, q, compile);
    } else if n.route == Some(y) && n.pattern == prefix + q {
      OwnNotClashing(n, prefix, q, x, p, compile);
    } else {
      var j, s := ShownBelow(n, prefix, x, prefix + p, compile);
      var k, t := ShownBelow(n, prefix, y, prefix + q, compile);
      ShiftedBack(prefix, n.path, p, s);
      ShiftedBack(prefix, n.path, q, t);
      ClashBelowSame(n, prefix, s, x, t, y, compile);
      if j == k {
        Concat(prefix, n.path, s);
        Concat(prefix, n.path, t);
        ShowsNotBoth(n.children[j], prefix + n.path, x, s, y, t, compile);
      } else {
        SiblingsNotBoth(n, prefix, j, s, k, t, compile);
      }
    }
  }

  lemma ShiftedBack(prefix: string, u: string, p: string, t: string)
    requires prefix + p == prefix + u + t
    ensures p == u + t
  {
    assert p == (prefix + p)[|prefix|..];
    Concat(prefix, u, t);
    assert (prefix + (u + t))[|prefix|..] == u + t;
  }

  // A node's own route is a prefix of the others.
  lemma OwnNotClashing(n: Tree, prefix: string, p: string, y: Handler, q: string, compile: Compiler)
    requires WellFormed(n, prefix, compile) && n.route.Some? && n.pattern == prefix + p && Shows(n, y, prefix + q)
    ensures !CaseClash(p, q)
  {
    assert n.pattern == prefix + n.path by { assert Local(n, prefix, compile); }
    assert p == n.path && n.path + "" == n.path by { assert p == (prefix + p)[|prefix|..] && n.path == (prefix + n.path)[|prefix|..]; }
    if n.pattern == prefix + q {
      assert q == n.path by { assert q == (prefix + q)[|prefix|..]; }
      NotOwnClash(n.path);
    } else {
      var k, t := ShownBelow(n, prefix, y, prefix + q, compile);
      ShiftedBack(prefix, n.path, q, t);
      WildKinds(n, prefix, compile);
      if TokenKind(n) {
        WholeToken(n, prefix, compile);
        TokenClash(n.path, "", t);
      } else {
        ClashStatic(n, prefix, "", t, compile);
      }
    }
  }

  lemma {:induction false} NotOwnClash(p: string)
    ensures !CaseClash(p, p)
    decreases |p|
  {
    match Uncons(p)
    case Named(_, rest) => NotOwnClash(rest);
    case Literal(_, rest) => NotOwnClash(rest);
    case _ =>
  }

  // Routes below two children that are both tried are not ambiguous.
  lemma SiblingsNotBoth(n: Tree, prefix: string, j: nat, s: string, k: nat, t: string, compile: Compiler)
    requires WellFormed(n, prefix, compile) && j < |n.children| && k < |n.children| && j != k
    requires Tried(n, j) && Tried(n, k) && OwnsByte(n, j, s) && OwnsByte(n, k, t)
    ensures !CaseClash(s, t)
  {
    WildKinds(n, prefix, compile);
    if j < |n.indices| && k < |n.indices| {
      assert n.indices[j] == s[0] && n.indices[k] == t[0] && s[0] != t[0];
      TriedApart(n, j, k);
    }
  }

  lemma TriedApart(n: Tree, j: nat, k: nat)
    requires j < |n.indices| <= |n.children| && k < |n.indices| && j != k && Tried(n, j) && Tried(n, k)
    ensures !FoldEq(n.indices[j], n.indices[k], true)
  {
  }

  lemma RootShowsNotBoth(root: Tree, x: Handler, p: string, y: Handler, q: string, compile: Compiler)
    requires RootOk(root, compile) && Shows(root, x, p) && Shows(root, y, q)
    ensures !CaseClash(p, q)
  {
    if !Fresh(root) {
      assert "" + p == p && "" + q == q;
      ShowsNotBoth(root, "", x, p, y, q, compile);
    }
  }

  // With folding, of two ambiguous registered patterns one is never found,
  // whatever the path.
  lemma ClashLosesOne(root: Tree, p: string, x: Handler, q: string, y: Handler, compile: Compiler)
    requires Registered(root, compile) && HasRoute(root, p, x) && HasRoute(root, q, y) && CaseClash(p, q)
    ensures Walkable(root)
    ensures (forall path :: Lookup(root, path, true).found.Some? ==> Lookup(root, path, true).found.value.pattern != p)
         || (forall path :: Lookup(root, path, true).found.Some? ==> Lookup(root, path, true).found.value.pattern != q)
  {
    RootShape(root, compile);
    if path :| Lookup(root, path, true).found.Some? && Lookup(root, path, true).found.value.pattern == p {
      forall other | Lookup(root, other, true).found.Some? ensures Lookup(root, other, true).found.value.pattern != q {
        var f, g := Lookup(root, path, true).found.value, Lookup(root, other, true).found.value;
        FoundShows(root, path, false);
        FoundShows(root, other, false);
        if g.pattern == q { RootShowsNotBoth(root, f.handler, p, g.handler, q, compile); }
      }
    }
  }
}
