// The child for the text behind a regular expression parameter is stored
// without an index, and the next registration of a suffix takes that child
// over. This module says exactly when a registration keeps all earlier routes
// within reach of a lookup.
module RegexSuffix {
  import opened Wrappers
  import opened Patterns
  import opened RouteTree
  import opened RouteSet
  import opened TreeInsert
  import opened TreeLookup
  import opened SuffixFits
  import opened TreeWalk
  import opened Registration

  // ---- Routes a lookup can come to ----

  // A walker that is done with the text of `n` can go on in child `j`: the
  // first one under a parameter, the first one for its index byte, or the last
  // one as the wildcard child.
  predicate Leads(n: Tree, j: nat)
    requires j < |n.children|
  {
    || (TokenKind(n) && j == 0)
    || (j < |n.indices| && FindIndex(n.indices, n.indices[j], false) == j)
    || (n.wildChild && j == |n.children| - 1)
  }

  // It can go on in every child that is more than an empty node.
  ghost predicate LeadsAll(n: Tree) { forall j | 0 <= j < |n.children| :: Leads(n, j) || n.children[j] == EMPTY_TREE }

  // In a well-formed tree it can.
  lemma AllLead(n: Tree, prefix: string, compile: Compiler)
    requires Local(n, prefix, compile)
    ensures LeadsAll(n) && forall j | 0 <= j < |n.children| && !Spare(n, j) :: Leads(n, j)
  {
  }

  // A walker can come to the node for `s`, which has handler `x`, and whose
  // pattern is the text that leads to it.
  ghost predicate Serving(n: Tree, prefix: string, s: string, x: Handler)
    decreases n, 1
  {
    || (s == n.path && n.route == Some(x) && n.pattern == prefix + n.path)
    || (n.path <= s && ServingBelow(n, prefix, s[|n.path|..], x))
  }

  ghost predicate ServingBelow(n: Tree, prefix: string, s: string, x: Handler)
    decreases n, 0
  {
    exists j :: 0 <= j < |n.children| && Leads(n, j) && Serving(n.children[j], prefix + n.path, s, x)
  }

  // In a well-formed tree these are its routes.
  lemma {:induction false} ServingRoutes(n: Tree, prefix: string, s: string, x: Handler, compile: Compiler)
    requires WellFormed(n, prefix, compile)
    ensures Serving(n, prefix, s, x) <==> HasRoute(n, s, x)
    decreases n
  {
    assert Local(n, prefix, compile);
    AllLead(n, prefix, compile);
    if n.path <= s {
      forall j | 0 <= j < |n.children|
        ensures Serving(n.children[j], prefix + n.path, s[|n.path|..], x) <==> HasRoute(n.children[j], s[|n.path|..], x)
      {
        if !Spare(n, j) { ServingRoutes(n.children[j], prefix + n.path, s[|n.path|..], x, compile); }
      }
    }
  }

  lemma EmptyServes(prefix: string, s: string, x: Handler)
    ensures !Serving(EMPTY_TREE, prefix, s, x) && !HasRoute(EMPTY_TREE, s, x)
  {
  }

  lemma ChildServes(n: Tree, prefix: string, k: nat, s: string, x: Handler, compile: Compiler)
    requires WellFormed(n, prefix, compile) && k < |n.children|
    ensures Serving(n.children[k], prefix + n.path, s, x) <==> HasRoute(n.children[k], s, x)
  {
    if Spare(n, k) {
      EmptyServes(prefix + n.path, s, x);
    } else {
      ServingRoutes(n.children[k], prefix + n.path, s, x, compile);
    }
  }

  // Under another prefix it serves nothing.
  lemma {:induction false} ServesNothing(n: Tree, prefix: string, other: string, s: string, x: Handler, compile: Compiler)
    requires WellFormed(n, prefix, compile) && prefix != other
    ensures !Serving(n, other, s, x)
    decreases n
  {
    assert Local(n, prefix, compile);
    SameTail(prefix, other, n.path);
    if n.path <= s {
      forall j | 0 <= j < |n.children| ensures !Serving(n.children[j], other + n.path, s[|n.path|..], x) {
        if !Spare(n, j) { ServesNothing(n.children[j], prefix + n.path, other + n.path, s[|n.path|..], x, compile); }
      }
    }
  }

  lemma SameTail(a: string, b: string, t: string)
    ensures a + t == b + t ==> a == b
  {
    if a + t == b + t {
      assert |a| == |b|;
      assert a == (a + t)[..|a|] && b == (b + t)[..|a|];
    }
  }

  // A walker can come to a node with handler `x` and pattern `p`.
  ghost predicate Reaches(n: Tree, x: Handler, p: string)
    decreases n
  {
    || (n.route == Some(x) && n.pattern == p)
    || exists j :: 0 <= j < |n.children| && Leads(n, j) && Reaches(n.children[j], x, p)
  }

  // In a well-formed tree that is a route.
  lemma {:induction false} ReachesRoute(n: Tree, prefix: string, x: Handler, p: string, compile: Compiler) returns (s: string)
    requires WellFormed(n, prefix, compile) && Reaches(n, x, p)
    ensures HasRoute(n, s, x) && p == prefix + s
    decreases n
  {
    assert Local(n, prefix, compile);
    if n.route == Some(x) && n.pattern == p {
      s := n.path;
    } else {
      var j :| 0 <= j < |n.children| && Leads(n, j) && Reaches(n.children[j], x, p);
      assert !Spare(n, j);
      var t := ReachesRoute(n.children[j], prefix + n.path, x, p, compile);
      s := n.path + t;
      Cut(n.path, t);
      Concat(prefix, n.path, t);
      assert Below(n, t, x);
    }
  }

  // What a lookup finds a walker can come to.
  lemma {:induction false} FoundIsReached(n: Tree, path: string, ci: bool, last: bool)
    requires Walkable(n)
    ensures var o := Search(n, path, ci, last);
            o.Hit? ==> Reaches(n, o.found.handler, o.found.pattern)
    decreases n
  {
    if |path| > |n.path| {
      var rest := path[|n.path|..];
      var j := FindIndex(n.indices, rest[0], ci);
      FoldLeads(n, rest[0], ci);
      if j >= 0 {
        FoundIsReached(n.children[j], rest, ci, last);
        var o := Search(n.children[j], rest, ci, last);
        if o.Miss? && n.wildChild { WildIsReached(Last(n.children), rest, ci, o.last); }
      } else if n.wildChild {
        WildIsReached(Last(n.children), rest, ci, last);
      }
      assert n.wildChild ==> Leads(n, |n.children| - 1);
    }
  }

  lemma {:induction false} WildIsReached(n: Tree, path: string, ci: bool, last: bool)
    requires Walkable(n) && WildLocal(n) && path != ""
    ensures var o := SearchWild(n, path, ci, last);
            o.Hit? ==> Reaches(n, o.found.handler, o.found.pattern)
    decreases n
  {
    if n.nType != WildcardNode && n.children != [] {
      assert Leads(n, 0);
      FoundIsReached(n.children[0], path[SegmentEnd(path)..], ci, last);
    }
  }

  // The first child whose index matches a byte is the first one for its index.
  lemma FoldLeads(n: Tree, b: char, ci: bool)
    requires |n.indices| <= |n.children|
    ensures var j := FindIndex(n.indices, b, ci); j >= 0 ==> Leads(n, j)
  {
    var j := FindIndex(n.indices, b, ci);
    if j >= 0 { EqualFolds(n.indices, b, ci, j); }
  }

  lemma EqualFolds(indices: string, b: char, ci: bool, j: nat)
    requires j < |indices| && FindIndex(indices, b, ci) == j
    ensures FindIndex(indices, indices[j], false) == j
  {
    forall i | 0 <= i < j ensures indices[i] != indices[j] { assert !FoldEq(b, indices[i], ci); }
  }

  // Everything served before is served after.
  ghost predicate Keeps(n: Tree, prefix: string, t: Tree) {
    forall s, x :: Serving(n, prefix, s, x) ==> Serving(t, prefix, s, x)
  }

  // ---- The child that is taken over ----

  ghost predicate AllAre(c: Tree, rest: string, h: Handler) {
    forall s, x :: HasRoute(c, s, x) ==> s == rest && x == h
  }

  ghost predicate OthersAre(c: Tree, rest: string, h: Handler) {
    forall s, x :: Below(c, s, x) ==> c.path + s == rest && x == h
  }

  // The registration repeats the one route there is; or it repeats the text up
  // to its next token, and what it replaces behind that: the handler there, a
  // wildcard child, or, with a catch-all, everything.
  ghost predicate Repeats(c: Tree, rest: string, h: Handler) {
    || AllAre(c, rest, h)
    || (NewText(rest) == c.path &&
        var w := FindWild(rest);
        if w.start < 0 then c.route.None? || c.route == Some(h)
        else if rest[w.start] == '*' then OthersAre(c, rest, h)
        else c.wildChild && c.children != [] ==> AllAre(Last(c.children), rest[w.start..], h))
  }

  // ---- What the registration makes of the child ----

  // Below text that is not the child's own, nothing it held is served.
  lemma OldServesNothing(c: Tree, prefix: string, text: string, s: string, x: Handler, compile: Compiler)
    requires WellFormed(c, prefix, compile) && text != c.path
    ensures !ServingBelow(c.(path := text), prefix, s, x)
    ensures c.route.Some? ==> c.pattern != prefix + text
  {
    assert Local(c, prefix, compile);
    PrefixFree(prefix, text, c.path);
    forall j | 0 <= j < |c.children| ensures !Serving(c.children[j], prefix + text, s, x) {
      if !Spare(c, j) { ServesNothing(c.children[j], prefix + c.path, prefix + text, s, x, compile); }
    }
  }

  lemma PrefixFree(a: string, s: string, t: string)
    ensures a + s == a + t ==> s == t
  {
    if a + s == a + t {
      assert s == (a + s)[|a|..] && t == (a + t)[|a|..];
    }
  }

  // What of the child is still served if its text stays.
  ghost predicate Survives(c: Tree, rest: string, s: string, x: Handler) {
    var w := FindWild(rest);
    && HasRoute(c, s, x)
    && if w.start < 0 then s != c.path
       else if rest[w.start] == '*' then s == c.path
       else c.path < s ==> !IsMark(s[|c.path|])
  }

  // `t` serves the new route and what survives.
  ghost predicate TakesOver(c: Tree, prefix: string, rest: string, h: Handler, t: Tree) {
    forall s, x :: Serving(t, prefix, s, x) <==>
      (s == rest && x == h) || (NewText(rest) == c.path && Survives(c, rest, s, x))
  }

  lemma KeepsIff(c: Tree, prefix: string, rest: string, h: Handler, t: Tree, compile: Compiler)
    requires WellFormed(c, prefix, compile) && StaticKind(c) && rest != "" && rest[0] == '/'
    requires TakesOver(c, prefix, rest, h, t)
    ensures Keeps(c, prefix, t) <==> Repeats(c, rest, h)
  {
    RoutesServed(c, prefix, compile);
    RoutesSplit(c, prefix, compile);
    if c.path != "" { WildcardApart(c, prefix, compile); }
    TextCut(rest);
    hide *;
    if Keeps(c, prefix, t) { KeptRepeats(c, prefix, rest, h, t); }
    if Repeats(c, rest, h) { RepeatsKept(c, prefix, rest, h, t); }
  }

  lemma RoutesSplit(c: Tree, prefix: string, compile: Compiler)
    requires WellFormed(c, prefix, compile) && StaticKind(c)
    ensures Split(c)
  {
    forall s, x ensures HasRoute(c, s, x) <==>
      (s == c.path && c.route == Some(x)) || (s != c.path && c.path <= s && Below(c, s[|c.path|..], x))
    {
      OwnOrBelow(c, prefix, s, x, compile);
    }
    forall x ensures !Below(c, "", x) {
      if Below(c, "", x) { var j := RouteChild(c, prefix, "", x, compile); }
    }
  }

  lemma OwnOrBelow(c: Tree, prefix: string, s: string, x: Handler, compile: Compiler)
    requires WellFormed(c, prefix, compile) && c.nType != WildcardNode
    ensures HasRoute(c, s, x) <==>
              (s == c.path && c.route == Some(x)) || (s != c.path && c.path <= s && Below(c, s[|c.path|..], x))
  {
    if c.path <= s && Below(c, s[|c.path|..], x) {
      var j := RouteChild(c, prefix, s[|c.path|..], x, compile);
    }
  }

  // The node's own route is one thing, those below it another.
  ghost predicate Split(c: Tree) {
    && (forall s, x :: HasRoute(c, s, x) <==>
          (s == c.path && c.route == Some(x)) || (s != c.path && c.path <= s && Below(c, s[|c.path|..], x)))
    && forall x :: !Below(c, "", x)
  }

  ghost predicate Served(c: Tree, prefix: string) { forall s, x :: Serving(c, prefix, s, x) <==> HasRoute(c, s, x) }

  lemma KeptRepeats(c: Tree, prefix: string, rest: string, h: Handler, t: Tree)
    requires Split(c) && Served(c, prefix) && TakesOver(c, prefix, rest, h, t) && Keeps(c, prefix, t)
    requires rest != "" && rest[0] == '/' && (c.path != "" ==> Apart(c))
    ensures Repeats(c, rest, h)
  {
    TextCut(rest);
    hide Serving, HasRoute, Below, FindWild, NewText;
    if NewText(rest) == c.path {
      var w := FindWild(rest);
      assert c.route.Some? ==> HasRoute(c, c.path, c.route.value);
      if w.start >= 0 && rest[w.start] == '*' {
        forall s, x | Below(c, s, x) ensures c.path + s == rest && x == h {
          Cut(c.path, s);
          assert s != "" && HasRoute(c, c.path + s, x);
        }
      } else if w.start >= 0 && c.wildChild {
        forall s, x | HasRoute(Last(c.children), s, x) ensures s == rest[w.start..] && x == h {
          Cut(c.path, s);
          assert Below(c, s, x) && HasRoute(c, c.path + s, x) && (c.path + s)[|c.path|] == s[0];
          Cut(c.path, rest[w.start..]);
        }
      }
    }
  }

  lemma RepeatsKept(c: Tree, prefix: string, rest: string, h: Handler, t: Tree)
    requires Split(c) && Served(c, prefix) && TakesOver(c, prefix, rest, h, t) && Repeats(c, rest, h)
    requires rest != "" && rest[0] == '/' && (c.path != "" ==> Apart(c))
    ensures Keeps(c, prefix, t)
  {
    TextCut(rest);
    hide Serving, HasRoute, Below, FindWild, NewText;
    forall s, x | Serving(c, prefix, s, x) ensures Serving(t, prefix, s, x) {
      if s != c.path {
        Rejoined(s, |c.path|);
        var w, tail := FindWild(rest), s[|c.path|..];
        assert tail != "" && s[|c.path|] == tail[0] && Below(c, tail, x);
        if NewText(rest) == c.path && w.start >= 0 && rest[w.start] != '*' && IsMark(tail[0]) && !AllAre(c, rest, h) {
          assert c.path != "" && c.wildChild && HasRoute(Last(c.children), tail, x);
          assert tail == rest[w.start..] && s == rest;
        }
      }
    }
  }

  lemma RoutesServed(c: Tree, prefix: string, compile: Compiler)
    requires WellFormed(c, prefix, compile)
    ensures Served(c, prefix)
  {
    forall s, x ensures Serving(c, prefix, s, x) <==> HasRoute(c, s, x) {
      ServingRoutes(c, prefix, s, x, compile);
    }
  }

  // ---- The three kinds of suffix ----

  // Nodes for the same children under the same text serve the same below.
  lemma KeptBelow(c: Tree, prefix: string, s: string, x: Handler, compile: Compiler)
    requires WellFormed(c, prefix, compile)
    ensures ServingBelow(c, prefix, s, x) <==> Below(c, s, x)
  {
    AllLead(c, prefix, compile);
    forall j | 0 <= j < |c.children|
      ensures (Leads(c, j) && Serving(c.children[j], prefix + c.path, s, x)) <==> HasRoute(c.children[j], s, x)
    {
      ChildServes(c, prefix, j, s, x, compile);
      if c.children[j] == EMPTY_TREE { EmptyServes(prefix + c.path, s, x); }
    }
    hide Serving, HasRoute, WellFormed, Leads;
  }

  // What a child's old children serve under its new text.
  lemma OldBelow(c: Tree, prefix: string, text: string, s: string, x: Handler, compile: Compiler)
    requires WellFormed(c, prefix, compile)
    ensures ServingBelow(c.(path := text), prefix, s, x) <==> text == c.path && Below(c, s, x)
    ensures c.route.Some? && text != c.path ==> c.pattern != prefix + text
    ensures c.route.Some? ==> c.pattern == prefix + c.path
  {
    assert Local(c, prefix, compile);
    if text == c.path {
      KeptBelow(c, prefix, s, x, compile);
    } else {
      OldServesNothing(c, prefix, text, s, x, compile);
    }
  }

  lemma SameBelow(t: Tree, c: Tree, prefix: string, s: string, x: Handler)
    requires t.path == c.path && t.children == c.children && t.indices == c.indices && t.wildChild == c.wildChild
    requires TokenKind(t) == TokenKind(c)
    ensures ServingBelow(t, prefix, s, x) <==> ServingBelow(c, prefix, s, x)
  {
  }

  // Without tokens: the child is renamed and given the handler.
  lemma TakePlain(c: Tree, prefix: string, rest: string, h: Handler, compile: Compiler)
    requires WellFormed(c, prefix, compile) && StaticKind(c) && FindWild(rest).start < 0
    ensures TakesOver(c, prefix, rest, h, SetRoute(Bumped(c).(path := rest), prefix + rest, h))
  {
    var t := SetRoute(Bumped(c).(path := rest), prefix + rest, h);
    RoutesSplit(c, prefix, compile);
    forall s, x ensures Serving(t, prefix, s, x) <==>
      (s == rest && x == h) || (NewText(rest) == c.path && Survives(c, rest, s, x))
    {
      if rest <= s {
        OldBelow(c, prefix, rest, s[|rest|..], x, compile);
        SameBelow(t, c.(path := rest), prefix, s[|rest|..], x);
        Rejoined(s, |rest|);
      }
    }
  }

  // With a parameter: the child is renamed and gets one more child.
  lemma TakeToken(c: Tree, prefix: string, u: string, v: string, h: Handler, k: Tree, compile: Compiler)
    requires WellFormed(c, prefix, compile) && StaticKind(c) && FindWild(u + v).start == |u| && u != "" && v != "" && v[0] != '*'
    requires WellFormed(k, prefix + u, compile) && Only(k, v, h)
    ensures TakesOver(c, prefix, u + v, h, Bumped(c).(path := u, children := c.children + [k], wildChild := true))
  {
    RoutesSplit(c, prefix, compile);
    Cut(u, v);
    assert NewText(u + v) == u && (u + v)[|u|] == v[0];
    forall s, x ensures Serving(Bumped(c).(path := u, children := c.children + [k], wildChild := true), prefix, s, x) <==>
      (s == u + v && x == h) || (u == c.path && HasRoute(c, s, x) && (c.path < s ==> !IsMark(s[|c.path|])))
    {
      hide *;
      TakeTokenAt(c, prefix, u, v, h, k, s, x, compile);
    }
    hide Serving, HasRoute;
  }

  lemma TakeTokenAt(c: Tree, prefix: string, u: string, v: string, h: Handler, k: Tree, s: string, x: Handler, compile: Compiler)
    requires WellFormed(c, prefix, compile) && StaticKind(c) && Split(c) && u != "" && v != ""
    requires WellFormed(k, prefix + u, compile) && Only(k, v, h)
    ensures Serving(Bumped(c).(path := u, children := c.children + [k], wildChild := true), prefix, s, x) <==>
              (s == u + v && x == h) || (u == c.path && HasRoute(c, s, x) && (c.path < s ==> !IsMark(s[|c.path|])))
  {
    var t := Bumped(c).(path := u, children := c.children + [k], wildChild := true);
    assert u <= s ==> HasRoute(k, s[|u|..], x) == (s[|u|..] == v && x == h);
    assert Split(c);
    assert |c.children| == |c.indices| + (if c.wildChild then 1 else 0) && (u == c.path ==> !Below(c, "", x));
    hide *;
    ServingAt(t, prefix, s, x);
    HasRouteAt(c, s, x);
    OldBelow(c, prefix, u, s, x, compile);
    Cut(u, v);
    if u <= s {
      var tail := s[|u|..];
      IndexedServes(c, prefix, u, tail, x, compile);
      OneMoreBelow(c, prefix, u, k, t, tail, x);
      ServingRoutes(k, prefix + u, tail, x, compile);
      Rejoined(s, |u|);
      assert tail != "" ==> s[|u|] == tail[0];
    }
  }

  // What is served below the children with an index.
  ghost predicate ServingIndexed(n: Tree, prefix: string, s: string, x: Handler)
    requires |n.indices| <= |n.children|
  {
    exists j :: 0 <= j < |n.indices| && Leads(n, j) && Serving(n.children[j], prefix + n.path, s, x)
  }

  lemma IndexedServes(c: Tree, prefix: string, u: string, s: string, x: Handler, compile: Compiler)
    requires WellFormed(c, prefix, compile) && StaticKind(c) && u != ""
    ensures |c.indices| <= |c.children|
    ensures ServingIndexed(c.(path := u), prefix, s, x) <==> u == c.path && s != "" && !IsMark(s[0]) && Below(c, s, x)
  {
    assert Local(c, prefix, compile);
    if u == c.path {
      IndexedRoutes(c, prefix, s, x, compile);
      SameIndexed(c.(path := u), c, prefix, s, x);
    } else {
      OldBelow(c, prefix, u, s, x, compile);
      hide WellFormed, Serving, Local;
      assert ServingIndexed(c.(path := u), prefix, s, x) ==> ServingBelow(c.(path := u), prefix, s, x);
    }
  }

  lemma SameIndexed(t: Tree, c: Tree, prefix: string, s: string, x: Handler)
    requires t == c && |c.indices| <= |c.children|
    ensures ServingIndexed(t, prefix, s, x) <==> ServingIndexed(c, prefix, s, x)
  {
  }

  lemma IndexedRoutes(c: Tree, prefix: string, s: string, x: Handler, compile: Compiler)
    requires WellFormed(c, prefix, compile) && StaticKind(c) && c.path != ""
    ensures |c.indices| <= |c.children|
    ensures ServingIndexed(c, prefix, s, x) <==> s != "" && !IsMark(s[0]) && Below(c, s, x)
  {
    assert Local(c, prefix, compile);
    AllLead(c, prefix, compile);
    if Below(c, s, x) && s != "" && !IsMark(s[0]) {
      var j := RouteChild(c, prefix, s, x, compile);
      ChildWellFormed(c, prefix, j, compile);
      ServingRoutes(c.children[j], prefix + c.path, s, x, compile);
    }
    if ServingIndexed(c, prefix, s, x) {
      hide Leads, GoodToken;
      var j :| 0 <= j < |c.indices| && Leads(c, j) && Serving(c.children[j], prefix + c.path, s, x);
      ChildWellFormed(c, prefix, j, compile);
      ServingRoutes(c.children[j], prefix + c.path, s, x, compile);
      ChildOwns(c, prefix, j, s, x, compile);
    }
  }

  lemma ServingAt(n: Tree, prefix: string, s: string, x: Handler)
    ensures Serving(n, prefix, s, x) <==>
              (s == n.path && n.route == Some(x) && n.pattern == prefix + n.path) || (n.path <= s && ServingBelow(n, prefix, s[|n.path|..], x))
  {
  }

  lemma HasRouteAt(n: Tree, s: string, x: Handler)
    ensures HasRoute(n, s, x) <==> (s == n.path && n.route == Some(x)) || (n.path <= s && Below(n, s[|n.path|..], x))
  {
  }

  lemma OneMoreBelow(c: Tree, prefix: string, u: string, k: Tree, t: Tree, s: string, x: Handler)
    requires StaticKind(c) && |c.children| == |c.indices| + (if c.wildChild then 1 else 0)
    requires t == Bumped(c).(path := u, children := c.children + [k], wildChild := true)
    ensures ServingBelow(t, prefix, s, x) <==> ServingIndexed(c.(path := u), prefix, s, x) || Serving(k, prefix + u, s, x)
  {
    hide Serving;
    forall j | 0 <= j < |c.indices| ensures Leads(t, j) == Leads(c.(path := u), j) && t.children[j] == c.children[j] { }
    if ServingIndexed(c.(path := u), prefix, s, x) {
      var j :| 0 <= j < |c.indices| && Leads(c.(path := u), j) && Serving(c.children[j], prefix + u, s, x);
      assert t.children[j] == c.children[j];
    }
    assert t.children[|c.children|] == k && Leads(t, |c.children|);
    if ServingBelow(t, prefix, s, x) {
      var j :| 0 <= j < |t.children| && Leads(t, j) && Serving(t.children[j], prefix + u, s, x);
    }
  }

  // With a catch-all: the child is renamed and loses its children.
  lemma TakeStar(c: Tree, prefix: string, u: string, v: string, h: Handler, compile: Compiler)
    requires WellFormed(c, prefix, compile) && StaticKind(c) && FindWild(u + v).start == |u| && v != "" && v[0] == '*'
    requires u != "" && Last(u) == '/'
    ensures var leaf := CatchAllLeaf("/" + v, prefix + (u + v), h);
            TakesOver(c, prefix, u + v, h,
                      Bumped(c).(path := u[..|u| - 1], children := [CatchAllNode(leaf)], indices := "/"))
  {
    var a, b := u[..|u| - 1], "/" + v;
    SlashMoves(u, v);
    var leaf := CatchAllLeaf(b, prefix + (u + v), h);
    var t := Bumped(c).(path := a, children := [CatchAllNode(leaf)], indices := "/");
    RoutesSplit(c, prefix, compile);
    Cut(u, v);
    assert NewText(u + v) == a;
    forall s, x ensures Serving(t, prefix, s, x) <==>
      (s == u + v && x == h) || (NewText(u + v) == c.path && Survives(c, u + v, s, x))
    {
      TakeStarAt(c, prefix, a, b, h, s, x, compile);
    }
  }

  lemma TakeStarAt(c: Tree, prefix: string, a: string, b: string, h: Handler, s: string, x: Handler, compile: Compiler)
    requires WellFormed(c, prefix, compile) && StaticKind(c)
    ensures Serving(Bumped(c).(path := a, children := [CatchAllNode(CatchAllLeaf(b, prefix + (a + b), h))], indices := "/"), prefix, s, x) <==>
              (s == a + b && x == h) || (a == c.path && s == a && c.route == Some(x))
  {
    var leaf := CatchAllLeaf(b, prefix + (a + b), h);
    var t := Bumped(c).(path := a, children := [CatchAllNode(leaf)], indices := "/");
    OldBelow(c, prefix, a, "", x, compile);
    hide WellFormed, HasRoute, Below, Serving, ServingBelow;
    ServingAt(t, prefix, s, x);
    Cut(a, b);
    if a <= s {
      Concat(prefix, a, b);
      LeafServes(t, prefix, leaf, s[|a|..], x, h);
      Rejoined(s, |a|);
    }
  }

  lemma LeafServes(t: Tree, prefix: string, leaf: Tree, s: string, x: Handler, h: Handler)
    requires t.children == [CatchAllNode(leaf)] && t.indices == "/" && !TokenKind(t) && leaf == CatchAllLeaf(leaf.path, prefix + t.path + leaf.path, h)
    ensures ServingBelow(t, prefix, s, x) <==> s == leaf.path && x == h
  {
    var q := prefix + t.path;
    var node := t.children[0];
    assert node == CatchAllNode(leaf) && node.children[0] == leaf && q + "" == q;
    assert s[0..] == s;
    assert Leads(t, 0) && Leads(node, 0);
    assert Serving(leaf, q, s, x) <==> s == leaf.path && x == h;
    assert ServingBelow(node, q, s, x) <==> Serving(leaf, q, s, x);
    assert Serving(node, q, s, x) <==> ServingBelow(node, q, s, x);
  }

  // ---- One node ----

  // The child after it, if the registration does not panic.
  lemma TakenOver(c: Tree, prefix: string, rest: string, h: Handler, compile: Compiler)
    requires WellFormed(c, prefix, compile) && StaticKind(c) && rest != "" && rest[0] == '/' && Tidy(rest)
    ensures var r := InsertChild(Bumped(c), rest, prefix + rest, h, compile);
            r.Ok? ==> TakesOver(c, prefix, rest, h, r.value)
  {
    var w := FindWild(rest);
    if w.start < 0 {
      TakePlain(c, prefix, rest, h, compile);
    } else {
      var u, v := rest[..w.start], rest[w.start..];
      Rejoined(rest, w.start);
      PlainTidy(u, v);
      if v[0] == '*' {
        StarTakes(c, prefix, u, v, h, compile);
      } else if IsToken(v[..SegmentEnd(v)]) {
        TokenTakes(c, prefix, u, v, h, compile);
      } else {
        BrokenToken(Bumped(c), u, v, prefix + rest, h, compile);
      }
    }
  }

  lemma TokenTakes(c: Tree, prefix: string, u: string, v: string, h: Handler, compile: Compiler)
    requires WellFormed(c, prefix, compile) && StaticKind(c) && Plain(u) && u != "" && FindWild(u + v).start == |u|
    requires v != "" && IsToken(v[..SegmentEnd(v)]) && Tidy(v)
    ensures var r := InsertChild(Bumped(c), u + v, prefix + (u + v), h, compile);
            r.Ok? ==> TakesOver(c, prefix, u + v, h, r.value)
  {
    var r := InsertChild(Bumped(c), u + v, prefix + (u + v), h, compile);
    ParamTaken(c, prefix, u, v, h, compile);
    TokenTail(v);
    hide InsertChild, WellFormed, FindWild, TakesOver, Only, Valid;
    if r.Ok? { TakeToken(c, prefix, u, v, h, Last(r.value.children), compile); }
  }

  lemma StarTakes(c: Tree, prefix: string, u: string, v: string, h: Handler, compile: Compiler)
    requires WellFormed(c, prefix, compile) && StaticKind(c) && Plain(u) && u != "" && FindWild(u + v).start == |u|
    requires v != "" && v[0] == '*'
    ensures var r := InsertChild(Bumped(c), u + v, prefix + (u + v), h, compile);
            r.Ok? ==> TakesOver(c, prefix, u + v, h, r.value)
  {
    StarTaken(c, prefix, u, v, h, compile);
    hide InsertChild, WellFormed, TakesOver, FindWild;
    if Last(u) == '/' { TakeStar(c, prefix, u, v, h, compile); }
  }

  // ---- The way back up ----

  // A route has one child to lie in.
  lemma OneOwner(n: Tree, prefix: string, j: nat, k: nat, s: string, x: Handler, y: Handler, compile: Compiler)
    requires WellFormed(n, prefix, compile) && j < |n.children| && k < |n.children|
    requires HasRoute(n.children[j], s, x) && HasRoute(n.children[k], s, y)
    ensures j == k && s != ""
  {
    ChildOwns(n, prefix, j, s, x, compile);
    ChildOwns(n, prefix, k, s, y, compile);
    hide GoodToken, HasRoute;
    assert Local(n, prefix, compile);
  }

  // `t` is `n` with child `j` replaced by `c`, as far as what is served goes.
  ghost predicate Replaces(n: Tree, prefix: string, j: nat, c: Tree, t: Tree)
    requires j < |n.children|
  {
    && t.path == n.path && t.route == n.route && t.pattern == n.pattern
    && forall s, x :: ServingBelow(t, prefix, s, x) <==>
         Serving(c, prefix + n.path, s, x) || exists k :: 0 <= k < |n.children| && k != j && Serving(n.children[k], prefix + n.path, s, x)
  }

  lemma ServedAbove(n: Tree, prefix: string, j: nat, c: Tree, t: Tree, s: string, x: Handler, compile: Compiler)
    requires WellFormed(n, prefix, compile) && j < |n.children| && Replaces(n, prefix, j, c, t) && s != ""
    ensures Serving(t, prefix, n.path + s, x) <==>
              Serving(c, prefix + n.path, s, x) || exists k :: 0 <= k < |n.children| && k != j && HasRoute(n.children[k], s, x)
  {
    Cut(n.path, s);
    ServingAt(t, prefix, n.path + s, x);
    forall k | 0 <= k < |n.children|
      ensures Serving(n.children[k], prefix + n.path, s, x) <==> HasRoute(n.children[k], s, x)
    {
      ChildServes(n, prefix, k, s, x, compile);
    }
    hide Serving, HasRoute, WellFormed;
  }

  lemma ServedWithin(n: Tree, prefix: string, j: nat, s: string, x: Handler, compile: Compiler)
    requires Local(n, prefix, compile) && j < |n.children| && Serving(n.children[j], prefix + n.path, s, x)
    ensures Serving(n, prefix, n.path + s, x)
  {
    AllLead(n, prefix, compile);
    Cut(n.path, s);
    assert ServingBelow(n, prefix, s, x);
  }

  lemma LostBelow(n: Tree, prefix: string, j: nat, c: Tree, t: Tree, s: string, x: Handler, compile: Compiler)
    requires WellFormed(n, prefix, compile) && j < |n.children| && Replaces(n, prefix, j, c, t) && Keeps(n, prefix, t)
    requires Serving(n.children[j], prefix + n.path, s, x)
    ensures Serving(c, prefix + n.path, s, x)
  {
    ChildServes(n, prefix, j, s, x, compile);
    OneOwner(n, prefix, j, j, s, x, x, compile);
    ServedWithin(n, prefix, j, s, x, compile);
    assert Serving(t, prefix, n.path + s, x);
    hide *;
    ServedAbove(n, prefix, j, c, t, s, x, compile);
    forall k | 0 <= k < |n.children| && HasRoute(n.children[k], s, x) ensures k == j {
      OneOwner(n, prefix, j, k, s, x, x, compile);
    }
  }

  // The whole keeps its routes exactly if the child does.
  lemma ReplacedKeeps(n: Tree, prefix: string, j: nat, c: Tree, t: Tree, compile: Compiler)
    requires WellFormed(n, prefix, compile) && j < |n.children| && Replaces(n, prefix, j, c, t)
    ensures Keeps(n, prefix, t) <==> Keeps(n.children[j], prefix + n.path, c)
  {
    if Keeps(n, prefix, t) {
      forall s, x | Serving(n.children[j], prefix + n.path, s, x) ensures Serving(c, prefix + n.path, s, x) {
        LostBelow(n, prefix, j, c, t, s, x, compile);
      }
    }
    if Keeps(n.children[j], prefix + n.path, c) {
      forall s, x | Serving(n, prefix, s, x) ensures Serving(t, prefix, s, x) {
        if n.path <= s && ServingBelow(n, prefix, s[|n.path|..], x) {
          assert ServingBelow(t, prefix, s[|n.path|..], x);
        }
      }
    }
  }

  lemma ReplacedAt(n: Tree, prefix: string, j: nat, c: Tree)
    requires j < |n.children| && LeadsAll(n) && Leads(n, j)
    ensures LeadsAll(n.(children := n.children[j := c])) && Replaces(n, prefix, j, c, n.(children := n.children[j := c]))
  {
    var t := n.(children := n.children[j := c]);
    forall k | 0 <= k < |t.children| ensures Leads(t, k) == Leads(n, k) { }
    forall s, x ensures ServingBelow(t, prefix, s, x) <==>
      Serving(c, prefix + n.path, s, x) || exists k :: 0 <= k < |n.children| && k != j && Serving(n.children[k], prefix + n.path, s, x)
    {
      EmptyServes(prefix + n.path, s, x);
      hide Serving, Leads;
      if Serving(c, prefix + n.path, s, x) { assert t.children[j] == c && Leads(t, j); }
      if exists k :: 0 <= k < |n.children| && k != j && Serving(n.children[k], prefix + n.path, s, x) {
        var k :| 0 <= k < |n.children| && k != j && Serving(n.children[k], prefix + n.path, s, x);
        assert t.children[k] == n.children[k] && Leads(t, k);
      }
    }
  }

  lemma ReorderedServes(n: Tree, prefix: string, j: nat, np: nat, s: string, x: Handler)
    requires np <= j < |n.indices| <= |n.children| && LeadsAll(n) && LeadsAll(Reordered(n, j, np))
    ensures ServingBelow(n, prefix, s, x) <==> ServingBelow(Reordered(n, j, np), prefix, s, x)
  {
    EmptyServes(prefix + n.path, s, x);
    hide Leads, Serving;
    var t := Reordered(n, j, np);
    if ServingBelow(n, prefix, s, x) {
      var i :| 0 <= i < |n.children| && Leads(n, i) && Serving(n.children[i], prefix + n.path, s, x);
      assert t.children[MovedTo(j, np, i)] == n.children[i] && Leads(t, MovedTo(j, np, i));
    }
    if ServingBelow(t, prefix, s, x) {
      var k :| 0 <= k < |t.children| && Leads(t, k) && Serving(t.children[k], prefix + n.path, s, x);
      assert t.children[k] == n.children[MovedFrom(j, np, k)] && Leads(n, MovedFrom(j, np, k));
    }
  }

  // Children keep their bytes when they are reordered.
  lemma ReorderedLeads(n: Tree, prefix: string, j: nat, np: nat, c: Tree, compile: Compiler)
    requires Local(n, prefix, compile) && n.path != "" && np <= j < |n.indices| && (StaticKind(n) || TokenKind(n))
    ensures |n.indices| <= |n.children| && LeadsAll(Reordered(n.(children := n.children[j := c]), j, np))
  {
    var t := Reordered(n.(children := n.children[j := c]), j, np);
    if StaticKind(n) {
      ReorderedLocal(n, prefix, j, np, compile);
      AllLead(Reordered(n, j, np), prefix, compile);
      SameLeads(Reordered(n, j, np), t);
    } else {
      MovedNowhere(n.children[j := c], j);
      MovedNowhere(n.indices, j);
    }
  }

  lemma SameLeads(n: Tree, t: Tree)
    requires t.nType == n.nType && t.indices == n.indices && t.wildChild == n.wildChild && |t.children| == |n.children|
    requires forall j | 0 <= j < |n.children| :: Leads(n, j)
    ensures LeadsAll(t)
  {
    forall k | 0 <= k < |t.children| ensures Leads(t, k) { assert Leads(n, k); }
  }

  lemma RejoinReplaces(n: Tree, prefix: string, j: nat, moves: bool, c: Tree, compile: Compiler)
    requires WellFormed(n, prefix, compile) && (StaticKind(n) || TokenKind(n)) && n.path != ""
    requires j < |n.children| && |n.indices| <= |n.children| && (moves ==> j < |n.indices|) && (TokenKind(n) ==> j == 0)
    ensures Rejoin(n, j, moves, Ok(c)).Ok? && Replaces(n, prefix, j, c, Rejoin(n, j, moves, Ok(c)).value)
  {
    var m := n.(children := n.children[j := c]);
    AllLead(n, prefix, compile);
    ReplacedAt(n, prefix, j, c);
    if moves {
      RejoinIsReordered(n, j, c);
      ReorderedLeads(n, prefix, j, NewPos(n, j), c, compile);
      hide Leads, LeadsAll, WellFormed, NewPos;
      forall s, x ensures ServingBelow(m, prefix, s, x) <==> ServingBelow(Reordered(m, j, NewPos(n, j)), prefix, s, x) {
        ReorderedServes(m, prefix, j, NewPos(n, j), s, x);
      }
    }
  }

  lemma TakenReplaces(n: Tree, prefix: string, c: Tree, b: char)
    requires |n.children| == 1 && TokenKind(n) && !n.wildChild
    ensures Replaces(n, prefix, 0, c, n.(indices := [b], children := [c, EMPTY_TREE]))
  {
    var t := n.(indices := [b], children := [c, EMPTY_TREE]);
    forall s, x ensures ServingBelow(t, prefix, s, x) <==> Serving(c, prefix + n.path, s, x) {
      assert t.children[0] == c && Leads(t, 0) && !Leads(t, 1);
    }
  }

  // ---- Exactly when a registration keeps what is registered ----

  // It comes to a token whose only child is not indexed, and does not repeat
  // what is there.
  ghost predicate Spoils(n: Tree, path: string, h: Handler)
    requires Shape(n)
    decreases Weight(n), 1
  {
    var i := CommonPrefix(path, n.path);
    i == |n.path| && i < |path| && SpoilsBelow(n, path[i..], h)
  }

  ghost predicate SpoilsBelow(n: Tree, rest: string, h: Handler)
    requires Shape(n) && rest != ""
    decreases Weight(n), 0
  {
    if Stuck(n, rest) then !Repeats(n.children[0], rest, h)
    else Chosen(n, rest) >= 0 && Spoils(Entered(n, Chosen(n, rest)), rest, h)
  }

  lemma {:induction false} SpoilsSecond(n: Tree, path: string, h: Handler)
    requires Shape(n) && Spoils(n, path, h)
    ensures SecondSuffix(n, path)
    decreases Weight(n)
  {
    var rest := path[|n.path|..];
    if !Stuck(n, rest) { SpoilsSecond(Entered(n, Chosen(n, rest)), rest, h); }
  }

  // At the token itself.
  lemma StuckKeeps(n: Tree, prefix: string, rest: string, h: Handler, compile: Compiler)
    requires WellFormed(n, prefix, compile) && Shape(n) && Stuck(n, rest) && rest[0] == '/' && Tidy(rest)
    ensures var r := AddBelow(n, rest, prefix + n.path + rest, h, compile);
            r.Ok? ==> (Keeps(n, prefix, r.value) <==> Repeats(n.children[0], rest, h))
  {
    var c, q := n.children[0], prefix + n.path;
    StuckChild(n, prefix, compile);
    ChildWellFormed(n, prefix, 0, compile);
    StuckIs(n, rest, q + rest, h, compile);
    TakenOver(c, q, rest, h, compile);
    var r := InsertChild(Bumped(c), rest, q + rest, h, compile);
    hide InsertChild, AddBelow, WellFormed, TakesOver, Replaces, Keeps, Repeats;
    if r.Ok? {
      TakenReplaces(n, prefix, r.value, rest[0]);
      ReplacedKeeps(n, prefix, 0, r.value, n.(indices := [rest[0]], children := [r.value, EMPTY_TREE]), compile);
      KeepsIff(c, q, rest, h, r.value, compile);
    }
  }

  lemma AddedKeeps(n: Tree, prefix: string, path: string, h: Handler, r: Result<Tree>, compile: Compiler)
    requires WellFormed(n, prefix, compile) && Registers(n, prefix, path, h, r, compile) && r.Ok?
    ensures Keeps(n, prefix, r.value)
  {
    RoutesServed(n, prefix, compile);
    RoutesServed(r.value, prefix, compile);
    hide Serving, HasRoute, WellFormed;
  }

  lemma BumpedKeeps(n: Tree, prefix: string, t: Tree)
    ensures Keeps(n, prefix, t) <==> Keeps(Bumped(n), prefix, t)
  {
    forall s, x ensures Serving(n, prefix, s, x) <==> Serving(Bumped(n), prefix, s, x) {
      if n.path <= s { SameBelow(Bumped(n), n, prefix, s[|n.path|..], x); }
    }
  }

  // A registration that does not panic keeps every earlier route exactly if it
  // does not spoil a token.
  lemma {:induction false} WalkKeeps(n: Tree, prefix: string, path: string, h: Handler, compile: Compiler)
    requires WellFormed(n, prefix, compile) && Shape(n) && Enters(n, path) && Tidy(path)
    ensures var r := AddWalk(n, path, prefix + path, h, compile);
            r.Ok? ==> (Keeps(n, prefix, r.value) <==> !Spoils(n, path, h))
    decreases Size(n)
  {
    hide WellFormed, AddWalk, Keeps, Repeats, Spoils, SecondSuffix, Misfits;
    if !SecondSuffix(n, path) {
      if Misfits(n, path, compile) { MisfitsSecond(n, path, compile); }
      WalkRegisters(n, prefix, path, prefix + path, h, compile);
      if AddWalk(n, path, prefix + path, h, compile).Ok? {
        AddedKeeps(n, prefix, path, h, AddWalk(n, path, prefix + path, h, compile), compile);
      }
      if Spoils(n, path, h) { SpoilsSecond(n, path, h); }
    } else if n.path == "" {
      NoTextStatic(n, prefix, path, compile);
      NoTextClashes(n, prefix, path, prefix + path, h, compile);
    } else {
      SecondGoesOn(n, path);
      RestBelow(n, prefix, path, compile);
      WalkIsBelow(n, path, prefix + path, h, compile);
      Concat(prefix, n.path, path[|n.path|..]);
      SpoilsIs(n, path, h);
      BelowKeeps(n, prefix, path[|n.path|..], h, compile);
    }
  }

  lemma SpoilsIs(n: Tree, path: string, h: Handler)
    requires Shape(n) && CommonPrefix(path, n.path) == |n.path| < |path|
    ensures Spoils(n, path, h) == SpoilsBelow(n, path[|n.path|..], h)
  {
  }

  lemma {:induction false} BelowKeeps(n: Tree, prefix: string, rest: string, h: Handler, compile: Compiler)
    requires WellFormed(n, prefix, compile) && Shape(n) && n.path != "" && rest != "" && Tidy(rest) && SecondBelow(n, rest)
    requires (StaticKind(n) || TokenKind(n)) && (TokenKind(n) ==> rest[0] == '/')
    ensures var r := AddBelow(n, rest, prefix + n.path + rest, h, compile);
            r.Ok? ==> (Keeps(n, prefix, r.value) <==> !SpoilsBelow(n, rest, h))
    decreases Size(n), 0
  {
    hide WellFormed, AddWalk, Keeps, Repeats, Spoils, SecondSuffix, Rejoin, InsertChild;
    if Stuck(n, rest) {
      StuckKeeps(n, prefix, rest, h, compile);
    } else {
      var j, moves := Chosen(n, rest), Moves(n, rest);
      var c := Entered(n, j);
      ChosenContinues(n, prefix, rest, compile);
      ChosenEnters(n, prefix, rest, compile);
      ChildWellFormed(n, prefix, j, compile);
      BumpedSame(n.children[j], prefix + n.path, compile);
      WalkKeeps(c, prefix + n.path, rest, h, compile);
      BelowIs(n, rest, prefix + n.path + rest, h, compile);
      var r := AddWalk(c, rest, prefix + n.path + rest, h, compile);
      if r.Ok? {
        RejoinReplaces(n, prefix, j, moves, r.value, compile);
        ReplacedKeeps(n, prefix, j, r.value, Rejoin(n, j, moves, r).value, compile);
        BumpedKeeps(n.children[j], prefix + n.path, r.value);
      } else {
        RejoinPanics(n, j, moves);
      }
    }
  }

  lemma BelowIs(n: Tree, rest: string, full: string, h: Handler, compile: Compiler)
    requires Shape(n) && rest != "" && Chosen(n, rest) >= 0
    ensures AddBelow(n, rest, full, h, compile)
         == Rejoin(n, Chosen(n, rest), Moves(n, rest), AddWalk(Entered(n, Chosen(n, rest)), rest, full, h, compile))
  {
    hide Rejoin, AddWalk, Graft;
  }

  lemma RejoinPanics(n: Tree, j: nat, moves: bool)
    requires j < |n.children| && |n.indices| <= |n.children| && (moves ==> j < |n.indices|)
    ensures Rejoin(n, j, moves, Panic).Panic?
  {
  }

  // The same for a method's whole tree.
  ghost predicate RootSpoils(root: Tree, pattern: string, h: Handler)
    requires Shape(root)
  {
    !(root.path == "" && root.indices == "") && Spoils(Bumped(root), pattern, h)
  }

  lemma PatternKeeps(root: Tree, pattern: string, h: Handler, compile: Compiler)
    requires Registered(root, compile) && Shape(root) && Rooted(pattern)
    ensures var r := AddPattern(root, pattern, h, compile);
            r.Ok? ==> (Keeps(root, "", r.value) <==> !RootSpoils(root, pattern, h))
  {
    if Fresh(root) {
      forall s, x ensures !Serving(root, "", s, x) { }
    } else {
      AddPatternCases(root, pattern, h, compile);
      RootIs(root, compile);
      hide AddPattern, AddWalk, Registered, WellFormed, Keeps, Spoils, Shape, MaxParamsOk, RootOk;
      var r := AddWalk(Bumped(root), pattern, pattern, h, compile);
      RootKeeps(root, pattern, h, compile);
      if r.Ok? {
        LabelKeeps(root, r.value, RaisedMax(root.maxParams, CountParams(pattern)));
      }
    }
  }

  lemma RootIs(root: Tree, compile: Compiler)
    requires Registered(root, compile) && !Fresh(root)
    ensures WellFormed(root, "", compile) && StaticKind(root) && First(root) == '/' && !(root.path == "" && root.indices == "")
  {
    assert Local(root, "", compile);
  }

  lemma RootKeeps(root: Tree, pattern: string, h: Handler, compile: Compiler)
    requires WellFormed(root, "", compile) && StaticKind(root) && First(root) == '/' && Shape(root) && Rooted(pattern)
    ensures Shape(Bumped(root))
    ensures var r := AddWalk(Bumped(root), pattern, pattern, h, compile);
            r.Ok? ==> (Keeps(root, "", r.value) <==> !Spoils(Bumped(root), pattern, h))
  {
    BumpedSame(root, "", compile);
    var n := Bumped(root);
    assert "" + pattern == pattern;
    RootEnters(n, pattern, compile);
    hide AddWalk, WellFormed, Keeps, Spoils;
    WalkKeeps(n, "", pattern, h, compile);
    var r := AddWalk(n, pattern, pattern, h, compile);
    if r.Ok? { BumpedKeeps(root, "", r.value); }
  }

  lemma RootEnters(n: Tree, pattern: string, compile: Compiler)
    requires WellFormed(n, "", compile) && StaticKind(n) && First(n) == '/' && Rooted(pattern)
    ensures Enters(n, pattern)
  {
  }

  lemma LabelKeeps(root: Tree, t: Tree, maxParams: nat)
    ensures Keeps(root, "", t) <==> Keeps(root, "", t.(maxParams := maxParams))
  {
    var u := t.(maxParams := maxParams);
    forall s, x ensures Serving(t, "", s, x) <==> Serving(u, "", s, x) {
      if t.path <= s { SameBelow(u, t, "", s[|t.path|..], x); }
    }
  }
}
