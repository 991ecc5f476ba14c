// Registration adds exactly one route, keeps the tree well formed, and fails
// exactly on an invalid pattern or a conflict with a registered one.
module TreeInsert {
  import opened Wrappers
  import opened Patterns
  import opened RouteTree
  import opened RouteSet

  ghost predicate Clash(n: Tree, path: string) {
    exists s, x :: HasRoute(n, s, x) && Conflict(s, path)
  }

  // `t` is `n` with the one route (path, h) added.
  ghost predicate Adds(n: Tree, t: Tree, path: string, h: Handler) {
    forall s, x :: HasRoute(t, s, x) <==> HasRoute(n, s, x) || (s == path && x == h)
  }

  // (path, h) is the only route of `t`.
  ghost predicate Only(t: Tree, path: string, h: Handler) {
    forall s, x :: HasRoute(t, s, x) <==> s == path && x == h
  }

  // ---- Nodes for a path nothing in the tree shares ----

  lemma PrependOnly(n: Tree, c: Tree, rest: string, h: Handler)
    requires n.route.None? && n.children == [c] && Only(c, rest, h)
    ensures Only(n, n.path + rest, h)
  {
    assert HasRoute(n.children[0], rest, h);
    assert (n.path + rest)[|n.path|..] == rest && Below(n, rest, h);
    forall s, x | HasRoute(n, s, x) ensures s == n.path + rest && x == h {
      assert Below(n, s[|n.path|..], x);
      assert HasRoute(c, s[|n.path|..], x);
    }
  }

  lemma NoChildOnly(n: Tree, h: Handler)
    requires n.route == Some(h) && n.children == []
    ensures Only(n, n.path, h)
  {
  }

  // What inserting `path` at a fresh node must come to.
  ghost predicate FreshOk(prefix: string, path: string, h: Handler, r: Result<Tree>, compile: Compiler)
    requires path != ""
  {
    && (r.Ok? <==> Valid(path, compile))
    && (r.Ok? ==>
          && WellFormed(r.value, prefix, compile) && r.value.nType == StaticNode
          && First(r.value) == path[0] && !CatchAllParent(r.value) && Only(r.value, path, h))
  }

  // What inserting `token + rest` as the wildcard child of `n` must come to.
  ghost predicate ParamOk(n: Tree, prefix: string, path: string, h: Handler, r: Result<Tree>, compile: Compiler) {
    && (r.Ok? <==> Valid(path, compile))
    && (r.Ok? ==>
          r.value.children != [] &&
          var c := Last(r.value.children);
          && r.value == n.(children := n.children + [c], wildChild := true)
          && TokenKind(c) && WellFormed(c, prefix, compile) && Only(c, path, h))
  }

  lemma {:induction false} InsertParamOnly(n: Tree, token: string, prefix: string, rest: string,
                                           full: string, h: Handler, compile: Compiler)
    requires ParamToken(token, compile) && Tidy(rest) && full == prefix + token + rest
    requires rest == "" || rest[0] == '/'
    ensures ParamOk(n, prefix, token + rest, h, InsertParam(n, TokenNode(token, compile), token + rest, full, h, compile), compile)
    decreases |token + rest|, 0
  {
    TokenValid(token, rest, compile);
    NodeText(token, compile);
    InsertParamIs(n, token, rest, full, h, compile);
    hide *;
    if rest == "" {
      assert token + rest == token && prefix + token + rest == prefix + token;
      TokenAlone(token, prefix, full, h, compile);
      ParamAt(n, prefix, token + rest, h, SetRoute(Bumped(TokenNode(token, compile)), full, h), compile);
    } else {
      EmptyIsFresh(rest);
      FreshInsert(EMPTY_TREE.(priority := 1), prefix + token, rest, full, h, compile);
      var next := InsertChild(EMPTY_TREE.(priority := 1), rest, full, h, compile);
      FreshGives(prefix + token, rest, h, next, compile);
      if next.Ok? {
        TokenOver(token, prefix, next.value, rest, h, compile);
        ParamAt(n, prefix, token + rest, h, Bumped(TokenNode(token, compile)).(children := [next.value]), compile);
      } else {
        ParamPanics(n, prefix, token + rest, h, compile);
      }
    }
  }

  lemma EmptyIsFresh(rest: string)
    ensures Fresh(EMPTY_TREE.(priority := 1)) && (rest != "" && rest[0] == '/' ==> !IsMark(rest[0]))
  {
  }

  lemma TokenValid(token: string, rest: string, compile: Compiler)
    requires ParamToken(token, compile) && (rest == "" || rest[0] == '/')
    ensures Valid(token + rest, compile) == Valid(rest, compile) && (rest == "" ==> Valid(rest, compile))
  {
    UnconsToken(token, rest);
  }

  lemma FreshGives(prefix: string, path: string, h: Handler, r: Result<Tree>, compile: Compiler)
    requires path != "" && FreshOk(prefix, path, h, r, compile)
    ensures r.Ok? <==> Valid(path, compile)
    ensures r.Ok? ==>
              && WellFormed(r.value, prefix, compile) && r.value.nType == StaticNode
              && First(r.value) == path[0] && Only(r.value, path, h)
  {
  }

  lemma ParamAt(n: Tree, prefix: string, path: string, h: Handler, c: Tree, compile: Compiler)
    requires Valid(path, compile) && TokenKind(c) && WellFormed(c, prefix, compile) && Only(c, path, h)
    ensures ParamOk(n, prefix, path, h, Ok(n.(children := n.children + [c], wildChild := true)), compile)
  {
    hide WellFormed, Only, Valid;
    assert Last(n.children + [c]) == c;
  }

  lemma ParamPanics(n: Tree, prefix: string, path: string, h: Handler, compile: Compiler)
    requires !Valid(path, compile)
    ensures ParamOk(n, prefix, path, h, Panic, compile)
  {
  }

  lemma InsertParamIs(n: Tree, token: string, rest: string, full: string, h: Handler, compile: Compiler)
    requires ParamToken(token, compile)
    ensures InsertParam(n, TokenNode(token, compile), token + rest, full, h, compile)
         == if rest == "" then Ok(n.(children := n.children + [SetRoute(Bumped(TokenNode(token, compile)), full, h)], wildChild := true))
            else match InsertChild(EMPTY_TREE.(priority := 1), rest, full, h, compile)
                 case Ok(next) =>
                   Ok(n.(children := n.children + [Bumped(TokenNode(token, compile)).(children := [next])], wildChild := true))
                 case Panic => Panic
  {
    Cut(token, rest);
    hide InsertChild, GoodToken;
  }

  // The token's node above what follows it ...
  lemma TokenOver(token: string, prefix: string, next: Tree, rest: string, h: Handler, compile: Compiler)
    requires ParamToken(token, compile) && rest != "" && rest[0] == '/'
    requires WellFormed(next, prefix + token, compile) && next.nType == StaticNode && First(next) == '/' && Only(next, rest, h)
    ensures var c := Bumped(TokenNode(token, compile)).(children := [next]);
            TokenKind(c) && WellFormed(c, prefix, compile) && Only(c, token + rest, h)
  {
    PrependOnly(Bumped(TokenNode(token, compile)).(children := [next]), next, rest, h);
  }

  // ... or with the route itself.
  lemma TokenAlone(token: string, prefix: string, full: string, h: Handler, compile: Compiler)
    requires ParamToken(token, compile) && full == prefix + token
    ensures var c := SetRoute(Bumped(TokenNode(token, compile)), full, h);
            TokenKind(c) && WellFormed(c, prefix, compile) && Only(c, token, h)
  {
    NoChildOnly(SetRoute(Bumped(TokenNode(token, compile)), full, h), h);
  }

  // What InsertChild does with each kind of first token.
  lemma InsertChildParam(n: Tree, path: string, start: nat, token: string, full: string, h: Handler, compile: Compiler)
    requires start + |token| <= |path| && IsToken(token) && '/' !in token
    requires FindWild(path) == Wild(token, start, token[0] == '{' || Single(token))
    ensures InsertChild(n, path, full, h, compile)
         == if ParamToken(token, compile)
            then InsertParam(TextBefore(n, path, start), TokenNode(token, compile), path[start..], full, h, compile)
            else Panic
  {
    if token[0] == ':' {
      TokenLengths(token, compile);
    } else {
      InsertRegexParam(TextBefore(n, path, start), token, path[start..], full, h, compile);
    }
  }

  lemma InsertRegexParam(n: Tree, token: string, path: string, full: string, h: Handler, compile: Compiler)
    requires IsToken(token) && '/' !in token && token[0] == '{' && |token| <= |path|
    ensures InsertRegex(n, token, path, full, h, compile)
         == if ParamToken(token, compile) then InsertParam(n, TokenNode(token, compile), path, full, h, compile) else Panic
  {
    hide InsertParam;
  }

  lemma InsertChildStar(n: Tree, path: string, start: nat, token: string, full: string, h: Handler, compile: Compiler)
    requires start < |path| && token != "" && token[0] == '*'
    requires FindWild(path) == Wild(token, start, Single(token))
    ensures InsertChild(n, path, full, h, compile)
         == if Single(token) && |token| >= 2 then InsertCatchAll(n, path, start, |token|, full, h) else Panic
  {
  }

  // The first token of a pattern whose braces close segments.
  lemma FirstToken(u: string, v: string)
    requires Plain(u) && v != "" && IsParamMark(v[0]) && Tidy(v)
    ensures var token := v[..SegmentEnd(v)];
            FindWild(u + v) == if IsToken(token) then Wild(token, |u|, token[0] == '{' || Single(token))
                               else Wild("", |u|, false)
  {
    if v[0] == ':' { FindWildAt(u, v); } else { FindBraceAt(u, v); }
  }

  lemma {:induction false} FindBraceAt(u: string, v: string)
    requires Plain(u) && v != "" && v[0] == '{' && Tidy(v)
    ensures var token := v[..SegmentEnd(v)];
            FindWild(u + v) == if IsToken(token) then Wild(token, |u|, true) else Wild("", |u|, false)
    decreases |u|
  {
    if u == "" {
      assert u + v == v;
      BraceToken(v);
    } else {
      hide Tidy, IsToken;
      assert (u + v)[1..] == u[1..] + v;
      FindBraceAt(u[1..], v);
    }
  }

  lemma BraceToken(v: string)
    requires v != "" && v[0] == '{' && Tidy(v)
    ensures var token := v[..SegmentEnd(v)];
            FindWild(v) == if IsToken(token) then Wild(token, 0, true) else Wild("", 0, false)
  {
    var token := v[..SegmentEnd(v)];
    var close := LastIndexOf(token, '}');
    if IsToken(token) {
      assert close == |token| - 1 && v[..close + 1] == token;
    } else {
      assert Uncons(v) == Literal('{', v[1..]);
    }
  }

  lemma {:induction false} FreshInsert(n: Tree, prefix: string, path: string, full: string, h: Handler, compile: Compiler)
    requires Fresh(n) && path != "" && !IsMark(path[0]) && Tidy(path) && full == prefix + path
    ensures FreshOk(prefix, path, h, InsertChild(n, path, full, h, compile), compile)
    decreases |path|, 1
  {
    var w := FindWild(path);
    if w.start < 0 {
      assert path + "" == path;
      PlainValid(path, "", compile);
      NoChildOnly(SetRoute(n.(path := path), full, h), h);
    } else {
      var u, v := path[..w.start], path[w.start..];
      assert path == u + v;
      PlainTidy(u, v);
      if v[0] == '*' {
        FreshInsertStar(n, prefix, u, v, full, h, compile);
      } else if IsToken(v[..SegmentEnd(v)]) {
        FreshInsertParam(n, prefix, u, v, full, h, compile);
      } else {
        BrokenToken(n, u, v, full, h, compile);
      }
    }
  }

  // A brace that is never closed.
  lemma BrokenToken(n: Tree, u: string, v: string, full: string, h: Handler, compile: Compiler)
    requires Plain(u) && v != "" && IsParamMark(v[0]) && Tidy(v) && !IsToken(v[..SegmentEnd(v)])
    ensures !Valid(u + v, compile) && InsertChild(n, u + v, full, h, compile).Panic?
  {
    FirstToken(u, v);
    PlainValid(u, v, compile);
    assert Uncons(v) == Literal('{', v[1..]);
  }

  lemma {:induction false} FreshInsertParam(n: Tree, prefix: string, u: string, v: string,
                                            full: string, h: Handler, compile: Compiler)
    requires Fresh(n) && u != "" && Plain(u) && v != "" && IsToken(v[..SegmentEnd(v)])
    requires Tidy(v) && full == prefix + (u + v)
    ensures FreshOk(prefix, u + v, h, InsertChild(n, u + v, full, h, compile), compile)
    decreases |u + v|, 0
  {
    var token, rest := v[..SegmentEnd(v)], v[SegmentEnd(v)..];
    TokenTail(v);
    FirstToken(u, v);
    hide *;
    InsertChildParam(n, u + v, |u|, token, full, h, compile);
    TextIs(n, u, v);
    PlainValid(u, v, compile);
    if ParamToken(token, compile) {
      Concat(prefix, u, v);
      Concat(prefix + u, token, rest);
      InsertParamOnly(n.(path := u), token, prefix + u, rest, full, h, compile);
      NodeText(token, compile);
      FreshFromParam(n, prefix, u, v, h, InsertParam(n.(path := u), TokenNode(token, compile), v, full, h, compile), compile);
    } else {
      BadToken(token, rest, compile);
      FreshPanics(prefix, u + v, h, compile);
    }
  }

  lemma TextIs(n: Tree, u: string, v: string)
    requires u != "" && v != ""
    ensures TextBefore(n, u + v, |u|) == n.(path := u) && (u + v)[|u|..] == v && NoStar(v) == (v[0] != '*')
  {
    Cut(u, v);
  }

  lemma NodeText(token: string, compile: Compiler)
    requires ParamToken(token, compile)
    ensures TokenNode(token, compile).path == token && |token| >= 2
  {
  }

  lemma FreshFromParam(n: Tree, prefix: string, u: string, v: string, h: Handler, r: Result<Tree>, compile: Compiler)
    requires Fresh(n) && u != "" && Plain(u) && Valid(u + v, compile) == Valid(v, compile)
    requires ParamOk(n.(path := u), prefix + u, v, h, r, compile)
    ensures FreshOk(prefix, u + v, h, r, compile)
  {
    hide WellFormed, HasRoute, Valid;
    if r.Ok? {
      ParamParent(n, prefix, u, Last(r.value.children), v, h, compile);
    }
  }

  lemma FreshPanics(prefix: string, path: string, h: Handler, compile: Compiler)
    requires path != "" && !Valid(path, compile)
    ensures FreshOk(prefix, path, h, Panic, compile)
  {
  }

  // A pattern that starts with a token.
  lemma TokenTail(v: string)
    requires v != "" && IsToken(v[..SegmentEnd(v)]) && Tidy(v)
    ensures var token, rest := v[..SegmentEnd(v)], v[SegmentEnd(v)..];
            && v == token + rest && '/' !in token && Tidy(rest) && (rest == "" || rest[0] == '/')
            && Uncons(v) == Named(token, rest) && IsParamMark(v[0])
  {
    Rejoined(v, SegmentEnd(v));
  }

  lemma BadToken(token: string, rest: string, compile: Compiler)
    requires IsToken(token) && '/' !in token && (rest == "" || rest[0] == '/')
    requires !ParamToken(token, compile)
    ensures !Valid(token + rest, compile)
  {
    UnconsToken(token, rest);
  }

  lemma ParamParent(n: Tree, prefix: string, u: string, c: Tree, v: string, h: Handler, compile: Compiler)
    requires Fresh(n) && u != "" && Plain(u)
    requires TokenKind(c) && WellFormed(c, prefix + u, compile) && Only(c, v, h)
    ensures var t := n.(path := u, children := n.children + [c], wildChild := true);
            WellFormed(t, prefix, compile) && Only(t, u + v, h)
  {
    var t := n.(path := u, children := n.children + [c], wildChild := true);
    PrependOnly(t, c, v, h);
    assert Local(t, prefix, compile);
  }

  lemma TokenLengths(token: string, compile: Compiler)
    requires token != "" && token[0] == ':' && '/' !in token
    ensures ParamToken(token, compile) <==> Single(token) && |token| >= 2
  {
  }

  lemma CatchAllWellFormed(n: Tree, prefix: string, a: string, b: string, full: string, h: Handler, compile: Compiler)
    requires Fresh(n) && Plain(a) && |b| >= 3 && b[..2] == "/*" && CleanName(b[2..]) && full == prefix + a + b
    ensures var t := n.(path := a, children := [CatchAllNode(CatchAllLeaf(b, full, h))], indices := "/");
            WellFormed(t, prefix, compile) && First(t) == (a + b)[0] && Only(t, a + b, h)
  {
    var leaf := CatchAllLeaf(b, full, h);
    var node := CatchAllNode(leaf);
    NoChildOnly(leaf, h);
    PrependOnly(node, leaf, b, h);
    assert "" + b == b;
    PrependOnly(n.(path := a, children := [node], indices := "/"), node, b, h);
    assert prefix + a + "" == prefix + a;
    assert WellFormed(leaf, prefix + a, compile);
    assert WellFormed(node, prefix + a, compile);
  }

  lemma CatchAllResult(n: Tree, u: string, v: string, full: string, h: Handler)
    requires n.path == "" && u != "" && Last(u) == '/'
    ensures InsertCatchAll(n, u + v, |u|, |v|, full, h)
         == Ok(n.(path := u[..|u| - 1], children := [CatchAllNode(CatchAllLeaf("/" + v, full, h))], indices := "/"))
  {
    assert (u + v)[..|u| - 1] == u[..|u| - 1] && (u + v)[|u| - 1..] == "/" + v;
  }

  // A name is clean exactly when its token runs to the end of the pattern and
  // holds no second wildcard.
  lemma CatchAllToken(v: string)
    requires v != "" && v[0] == '*'
    ensures var token := v[..SegmentEnd(v)];
            (|token| == |v| && Single(token) && |token| >= 2) <==> CleanName(v[1..])
  {
    var e := SegmentEnd(v);
    if e < |v| {
      assert v[1..][e - 1] == '/';
    }
  }

  lemma FreshInsertStar(n: Tree, prefix: string, u: string, v: string, full: string, h: Handler, compile: Compiler)
    requires Fresh(n) && u != "" && Plain(u) && v != "" && v[0] == '*' && full == prefix + (u + v)
    ensures FreshOk(prefix, u + v, h, InsertChild(n, u + v, full, h, compile), compile)
  {
    FindWildAt(u, v);
    InsertChildStar(n, u + v, |u|, v[..SegmentEnd(v)], full, h, compile);
    hide InsertChild, InsertParam, WellFormed, HasRoute;
    CatchAllToken(v);
    if Last(u) != '/' {
      StarInvalid(u, v, compile);
    } else {
      StarAfterSlash(n, prefix, u, v, full, h, compile);
    }
  }

  lemma StarAfterSlash(n: Tree, prefix: string, u: string, v: string, full: string, h: Handler, compile: Compiler)
    requires Fresh(n) && u != "" && Plain(u) && Last(u) == '/' && v != "" && v[0] == '*' && full == prefix + (u + v)
    ensures Valid(u + v, compile) <==> CleanName(v[1..])
    ensures CleanName(v[1..]) ==> FreshOk(prefix, u + v, h, InsertCatchAll(n, u + v, |u|, |v|, full, h), compile)
  {
    var a, b := u[..|u| - 1], "/" + v;
    SlashMoves(u, v);
    PlainValid(a, b, compile);
    assert Uncons(b) == CatchAll(b);
    if CleanName(v[1..]) {
      CatchAllResult(n, u, v, full, h);
      Concat(prefix, a, b);
      CatchAllWellFormed(n, prefix, a, b, full, h, compile);
    }
  }

  lemma SlashMoves(u: string, v: string)
    requires u != "" && Last(u) == '/'
    requires v != ""
    ensures u + v == u[..|u| - 1] + ("/" + v) && ("/" + v)[2..] == v[1..]
  {
  }

  // ---- Reordering the children ----

  ghost predicate SameRoutes(n: Tree, t: Tree) {
    forall s, x :: HasRoute(n, s, x) <==> HasRoute(t, s, x)
  }

  function Reordered(n: Tree, j: nat, np: nat): Tree
    requires np <= j < |n.indices| <= |n.children|
  {
    n.(children := MoveUp(n.children, j, np), indices := MoveUp(n.indices, j, np))
  }

  lemma MovedFromInjective(pos: nat, np: nat, i: nat, k: nat)
    requires np <= pos && i != k
    ensures MovedFrom(pos, np, i) != MovedFrom(pos, np, k)
  {
  }

  // The index an element has after MoveUp.
  function MovedTo(pos: nat, np: nat, i: nat): (k: nat)
    requires np <= pos
    ensures MovedFrom(pos, np, k) == i
    ensures i <= pos ==> k <= pos
    ensures i > pos ==> k == i
  {
    if i == pos then np else if np <= i < pos then i + 1 else i
  }

  lemma ReorderedLocal(n: Tree, prefix: string, j: nat, np: nat, compile: Compiler)
    requires Local(n, prefix, compile) && StaticKind(n) && np <= j < |n.indices| && n.path != ""
    ensures Local(Reordered(n, j, np), prefix, compile)
  {
    var t := Reordered(n, j, np);
    forall i, k | 0 <= i < k < |t.indices| ensures t.indices[i] != t.indices[k] {
      MovedFromInjective(j, np, i, k);
    }
    forall k | 0 <= k < |t.indices|
      ensures !IsMark(t.indices[k]) && t.children[k].nType == StaticNode && First(t.children[k]) == t.indices[k]
    {
      assert t.children[k] == n.children[MovedFrom(j, np, k)];
    }
  }

  lemma ReorderedRoutes(n: Tree, j: nat, np: nat)
    requires np <= j < |n.indices| <= |n.children|
    ensures SameRoutes(n, Reordered(n, j, np))
  {
    var t := Reordered(n, j, np);
    forall s, x ensures Below(n, s, x) <==> Below(t, s, x) {
      if Below(n, s, x) {
        var i :| 0 <= i < |n.children| && HasRoute(n.children[i], s, x);
        assert t.children[MovedTo(j, np, i)] == n.children[i];
      }
      if Below(t, s, x) {
        var k :| 0 <= k < |t.children| && HasRoute(t.children[k], s, x);
        assert t.children[k] == n.children[MovedFrom(j, np, k)];
      }
    }
  }

  lemma ReorderedWellFormed(n: Tree, prefix: string, j: nat, np: nat, compile: Compiler)
    requires WellFormed(n, prefix, compile) && StaticKind(n) && np <= j < |n.indices| && n.path != ""
    ensures WellFormed(Reordered(n, j, np), prefix, compile) && SameRoutes(n, Reordered(n, j, np))
  {
    var t := Reordered(n, j, np);
    ReorderedLocal(n, prefix, j, np, compile);
    ReorderedRoutes(n, j, np);
    forall k | 0 <= k < |t.children| ensures WellFormed(t.children[k], prefix + t.path, compile) {
      assert t.children[k] == n.children[MovedFrom(j, np, k)];
    }
  }

  // Rejoin puts the new child in place of the old one, up to that order.
  lemma RejoinIsReordered(n: Tree, j: nat, t: Tree)
    requires j < |n.indices| <= |n.children|
    ensures NewPos(n, j) <= j
    ensures Rejoin(n, j, true, Ok(t)) == Ok(Reordered(n.(children := n.children[j := t]), j, NewPos(n, j)))
  {
    var np := NewPos(n, j);
    var a, b := n.children[j := Bumped(n.children[j])], n.children[j := t];
    assert MoveUp(a, j, np)[np := t] == MoveUp(b, j, np);
  }

  // ---- Patterns that continue below a node ----

  // `t` can follow the text of `n`.
  predicate Continues(n: Tree, t: string) {
    && (StaticKind(n) ==> NoStar(t))
    && (TokenKind(n) ==> t == "" || t[0] == '/')
    && (StaticKind(n) || TokenKind(n))
  }

  lemma ContinueValid(n: Tree, prefix: string, t: string, compile: Compiler)
    requires Local(n, prefix, compile) && Continues(n, t)
    ensures Valid(n.path + t, compile) == Valid(t, compile)
  {
    if TokenKind(n) {
      UnconsToken(n.path, t);
    } else {
      PlainValid(n.path, t, compile);
    }
  }

  lemma ContinueConflict(n: Tree, prefix: string, s: string, t: string, compile: Compiler)
    requires Local(n, prefix, compile) && Continues(n, s) && Continues(n, t)
    ensures Conflict(n.path + s, n.path + t) == Conflict(s, t)
  {
    if TokenKind(n) {
      UnconsToken(n.path, s);
      UnconsToken(n.path, t);
    } else {
      PlainConflict(n.path, s, t);
    }
  }

  lemma HeadsDiffer(s: string, t: string)
    requires s != "" && t != "" && s[0] != t[0] && !(IsParamMark(s[0]) && IsParamMark(t[0]))
    ensures !Conflict(s, t)
  {
  }

  ghost predicate ClashBelow(n: Tree, rest: string) {
    exists t, x :: Below(n, t, x) && Conflict(t, rest)
  }

  // A route, without the text of its top node.
  lemma RouteTail(n: Tree, prefix: string, s: string, x: Handler, compile: Compiler) returns (t: string)
    requires WellFormed(n, prefix, compile) && n.nType != WildcardNode && HasRoute(n, s, x)
    ensures s == n.path + t && Continues(n, t)
    ensures t == "" ==> n.route == Some(x)
    ensures t != "" ==> Below(n, t, x)
  {
    t := s[|n.path|..];
    RouteBegins(n, prefix, s, x, compile);
    if Below(n, t, x) {
      var j := RouteChild(n, prefix, t, x, compile);
    }
    WildKinds(n, prefix, compile);
  }

  lemma WildKinds(n: Tree, prefix: string, compile: Compiler)
    requires WellFormed(n, prefix, compile)
    ensures StaticKind(n) || TokenKind(n) || n.nType == WildcardNode
  {
  }

  // The routes of a tree are valid patterns.
  lemma {:induction false} RouteValid(n: Tree, prefix: string, s: string, x: Handler, compile: Compiler)
    requires WellFormed(n, prefix, compile) && HasRoute(n, s, x)
    ensures Valid(s, compile)
    decreases n
  {
    if n.nType == WildcardNode {
      LeafValid(n, prefix, s, x, compile);
    } else {
      var t := RouteTail(n, prefix, s, x, compile);
      if t != "" {
        var j := RouteChild(n, prefix, t, x, compile);
        ChildWellFormed(n, prefix, j, compile);
        RouteValid(n.children[j], prefix + n.path, t, x, compile);
      }
      ContinueValid(n, prefix, t, compile);
    }
  }

  lemma LeafValid(n: Tree, prefix: string, s: string, x: Handler, compile: Compiler)
    requires WellFormed(n, prefix, compile) && HasRoute(n, s, x) && n.nType == WildcardNode
    ensures Valid(s, compile)
  {
    assert LeafLocal(n) && s == n.path;
    hide WellFormed, HasRoute;
    assert Uncons(s) == CatchAll(s);
  }

  lemma ClashGoesBelow(n: Tree, prefix: string, rest: string, s: string, x: Handler, compile: Compiler)
    requires WellFormed(n, prefix, compile) && Continues(n, rest) && rest != ""
    requires HasRoute(n, s, x) && Conflict(s, n.path + rest)
    ensures ClashBelow(n, rest)
  {
    var t := RouteTail(n, prefix, s, x, compile);
    ContinueConflict(n, prefix, t, rest, compile);
  }

  lemma ClashComesUp(n: Tree, prefix: string, rest: string, t: string, x: Handler, compile: Compiler)
    requires WellFormed(n, prefix, compile) && Continues(n, rest)
    requires Below(n, t, x) && Conflict(t, rest)
    ensures Clash(n, n.path + rest)
  {
    var j := RouteChild(n, prefix, t, x, compile);
    ContinueConflict(n, prefix, t, rest, compile);
    Cut(n.path, t);
    assert HasRoute(n, n.path + t, x);
  }

  // A pattern that goes on below `n` can only conflict with one that does too.
  lemma ClashIsBelow(n: Tree, prefix: string, rest: string, compile: Compiler)
    requires WellFormed(n, prefix, compile) && Continues(n, rest) && rest != ""
    ensures Clash(n, n.path + rest) <==> ClashBelow(n, rest)
  {
    hide WellFormed, HasRoute, Below, Conflict;
    if Clash(n, n.path + rest) {
      var s, x :| HasRoute(n, s, x) && Conflict(s, n.path + rest);
      ClashGoesBelow(n, prefix, rest, s, x, compile);
    }
    if ClashBelow(n, rest) {
      var t, x :| Below(n, t, x) && Conflict(t, rest);
      ClashComesUp(n, prefix, rest, t, x, compile);
    }
  }

  lemma ClashOwned(n: Tree, prefix: string, rest: string, j: nat, t: string, x: Handler, compile: Compiler)
    requires WellFormed(n, prefix, compile) && rest != "" && j < |n.children| && OwnsByte(n, j, rest)
    requires n.children[j].nType != WildcardNode && Below(n, t, x) && Conflict(t, rest)
    ensures HasRoute(n.children[j], t, x)
  {
    var k := RouteChild(n, prefix, t, x, compile);
    if t[0] != rest[0] && !(IsParamMark(t[0]) && IsParamMark(rest[0])) { HeadsDiffer(t, rest); }
    hide HasRoute, Conflict, Below;
    assert k == j;
  }

  // ... and only in the child its next byte names.
  lemma ClashInChild(n: Tree, prefix: string, rest: string, j: nat, compile: Compiler)
    requires WellFormed(n, prefix, compile) && rest != "" && j < |n.children| && OwnsByte(n, j, rest)
    requires n.children[j].nType != WildcardNode
    ensures ClashBelow(n, rest) <==> Clash(n.children[j], rest)
  {
    if ClashBelow(n, rest) {
      var t, x :| Below(n, t, x) && Conflict(t, rest);
      ClashOwned(n, prefix, rest, j, t, x, compile);
    }
    hide Local, Conflict, OwnsByte;
    if Clash(n.children[j], rest) {
      var s, x :| HasRoute(n.children[j], s, x) && Conflict(s, rest);
      assert Below(n, s, x);
    }
  }

  // Nothing below `n` owns the next byte.
  lemma NoClashBelow(n: Tree, prefix: string, rest: string, compile: Compiler)
    requires WellFormed(n, prefix, compile) && rest != "" && !IsMark(rest[0]) && !CatchAllParent(n)
    requires (StaticKind(n) && rest[0] !in n.indices) || n.children == []
    ensures !ClashBelow(n, rest)
  {
    forall t, x | Below(n, t, x) ensures !Conflict(t, rest) {
      var k := RouteChild(n, prefix, t, x, compile);
      HeadsDiffer(t, rest);
    }
  }

  // ---- Replacing and adding children ----

  ghost predicate ReplacedOk(n: Tree, prefix: string, t: Tree, rest: string, h: Handler, compile: Compiler) {
    && WellFormed(t, prefix, compile) && t.nType == n.nType && t.path == n.path
    && Adds(n, t, n.path + rest, h)
  }

  lemma ReplacedLocal(n: Tree, prefix: string, j: nat, c: Tree, compile: Compiler)
    requires Local(n, prefix, compile) && n.path != "" && j < |n.children| && c.nType == n.children[j].nType
    requires TokenKind(n) ==> j == 0
    requires StaticKind(c) ==> First(c) == First(n.children[j])
    ensures Local(n.(children := n.children[j := c]), prefix, compile)
  {
  }

  lemma ReplacedBelow(n: Tree, j: nat, c: Tree, rest: string, h: Handler, s: string, x: Handler)
    requires j < |n.children| && Adds(n.children[j], c, rest, h)
    ensures Below(n.(children := n.children[j := c]), s, x) <==> Below(n, s, x) || (s == rest && x == h)
  {
    var t := n.(children := n.children[j := c]);
    if Below(t, s, x) {
      var k :| 0 <= k < |t.children| && HasRoute(t.children[k], s, x);
      assert k != j ==> HasRoute(n.children[k], s, x);
    }
    if Below(n, s, x) {
      var k :| 0 <= k < |n.children| && HasRoute(n.children[k], s, x);
      assert HasRoute(t.children[k], s, x);
    }
    assert HasRoute(t.children[j], rest, h);
  }

  // Child `j` takes the new route in.
  lemma ChildReplaced(n: Tree, prefix: string, j: nat, c: Tree, rest: string, h: Handler, compile: Compiler)
    requires WellFormed(n, prefix, compile) && n.path != "" && j < |n.children| && (TokenKind(n) ==> j == 0)
    requires WellFormed(c, prefix + n.path, compile) && c.nType == n.children[j].nType
    requires StaticKind(c) ==> First(c) == First(n.children[j])
    requires Adds(n.children[j], c, rest, h)
    ensures ReplacedOk(n, prefix, n.(children := n.children[j := c]), rest, h, compile)
  {
    var t := n.(children := n.children[j := c]);
    ReplacedLocal(n, prefix, j, c, compile);
    assert WellFormed(t, prefix, compile);
    hide HasRoute, Below, WellFormed;
    forall s, x ensures Below(t, s, x) <==> Below(n, s, x) || (s == rest && x == h) {
      ReplacedBelow(n, j, c, rest, h, s, x);
    }
    PrefixedRoutes(n, t, rest, h);
  }

  lemma PrefixedRoutes(n: Tree, t: Tree, rest: string, h: Handler)
    requires t.path == n.path && t.route == n.route
    requires forall s, x :: Below(t, s, x) <==> Below(n, s, x) || (s == rest && x == h)
    ensures Adds(n, t, n.path + rest, h)
  {
    assert (n.path + rest)[|n.path|..] == rest;
    forall s, x ensures HasRoute(t, s, x) <==> HasRoute(n, s, x) || (s == n.path + rest && x == h) {
      if n.path <= s { assert s == n.path + s[|n.path|..]; }
    }
  }

  // A child `c` holding just the new route joins the children at index `j`.
  lemma ChildAdded(n: Tree, t: Tree, j: nat, c: Tree, rest: string, h: Handler)
    requires t.path == n.path && t.route == n.route && j <= |n.children|
    requires t.children == n.children[..j] + [c] + n.children[j..]
    requires Only(c, rest, h)
    ensures Adds(n, t, n.path + rest, h)
  {
    forall s, x ensures Below(t, s, x) <==> Below(n, s, x) || (s == rest && x == h) {
      InsertedBelow(n, t, j, c, rest, h, s, x);
    }
    hide *;
    PrefixedRoutes(n, t, rest, h);
  }

  lemma InsertedBelow(n: Tree, t: Tree, j: nat, c: Tree, rest: string, h: Handler, s: string, x: Handler)
    requires j <= |n.children| && t.children == n.children[..j] + [c] + n.children[j..] && Only(c, rest, h)
    ensures Below(t, s, x) <==> Below(n, s, x) || (s == rest && x == h)
  {
    assert HasRoute(c, s, x) <==> s == rest && x == h;
    hide HasRoute, Only;
    AnyInserted(n.children, j, c, k => HasRoute(k, s, x));
  }

  lemma AnyInserted<T>(s: seq<T>, j: nat, c: T, p: T -> bool)
    requires j <= |s|
    ensures var r := s[..j] + [c] + s[j..];
            (exists k :: 0 <= k < |r| && p(r[k])) <==> p(c) || exists k :: 0 <= k < |s| && p(s[k])
  {
    var r := s[..j] + [c] + s[j..];
    InsertedAt(s, j, c);
    if k :| 0 <= k < |s| && p(s[k]) { assert p(r[if k < j then k else k + 1]); }
    assert r[j] == c;
  }

  lemma InsertedAt<T>(s: seq<T>, j: nat, c: T)
    requires j <= |s|
    ensures var r := s[..j] + [c] + s[j..];
            && |r| == |s| + 1 && r[j] == c
            && (forall k | 0 <= k < |r| :: r[k] == if k < j then s[k] else if k == j then c else s[k - 1])
            && forall k | 0 <= k < |s| :: r[if k < j then k else k + 1] == s[k]
  {
  }

  predicate Addable(n: Tree, b: char) {
    && n.path != "" && !IsMark(b)
    && ((StaticKind(n) && b !in n.indices) || (TokenKind(n) && n.children == [] && b == '/'))
  }

  // The node AppendStatic makes, once its new child has become `c`.
  function WithStatic(n: Tree, b: char, c: Tree): Tree
    requires |n.indices| <= |n.children|
  {
    n.(indices := n.indices + [b], children := n.children[..|n.indices|] + [c] + n.children[|n.indices|..])
  }

  lemma AppendedStatic(n: Tree, prefix: string, b: char, c: Tree, compile: Compiler)
    requires Local(n, prefix, compile) && Addable(n, b)
    ensures var m := AppendStatic(n, b);
            |n.indices| <= |n.children| && m.(children := m.children[|n.indices| := c]) == WithStatic(n, b, c)
  {
  }

  lemma WithStaticLocal(n: Tree, prefix: string, b: char, c: Tree, compile: Compiler)
    requires Local(n, prefix, compile) && Addable(n, b) && c.nType == StaticNode && First(c) == b
    ensures Local(WithStatic(n, b, c), prefix, compile)
  {
    if StaticKind(n) { WithStaticKept(n, b, c); }
  }

  lemma WithStaticKept(n: Tree, b: char, c: Tree)
    requires StaticLocal(n) && n.path != "" && b !in n.indices && !IsMark(b) && c.nType == StaticNode && First(c) == b
    ensures StaticLocal(WithStatic(n, b, c))
  {
    var t := WithStatic(n, b, c);
    forall k | 0 <= k < |t.indices|
      ensures !IsMark(t.indices[k]) && t.children[k].nType == StaticNode && First(t.children[k]) == t.indices[k]
    {
      if k < |n.indices| { assert t.children[k] == n.children[k]; }
    }
    if n.wildChild { assert Last(t.children) == Last(n.children); }
  }

  lemma StaticAdded(n: Tree, prefix: string, b: char, c: Tree, rest: string, h: Handler, compile: Compiler)
    requires WellFormed(n, prefix, compile) && Addable(n, b)
    requires WellFormed(c, prefix + n.path, compile) && c.nType == StaticNode && First(c) == b && Only(c, rest, h)
    ensures |n.indices| <= |n.children| && ReplacedOk(n, prefix, WithStatic(n, b, c), rest, h, compile)
  {
    var j := |n.indices|;
    assert |n.indices| <= |n.children|;
    var t := WithStatic(n, b, c);
    WithStaticLocal(n, prefix, b, c, compile);
    WithStaticChildren(n, prefix, b, c, compile);
    hide Local, Only, Adds, First, Addable, HasRoute;
    ChildAdded(n, t, j, c, rest, h);
  }

  lemma WithStaticChildren(n: Tree, prefix: string, b: char, c: Tree, compile: Compiler)
    requires WellFormed(n, prefix, compile) && Addable(n, b) && WellFormed(c, prefix + n.path, compile)
    ensures |n.indices| <= |n.children|
    ensures var t := WithStatic(n, b, c);
            t.path == n.path && t.route == n.route && t.nType == n.nType
            && forall k | 0 <= k < |t.children| && !Spare(t, k) :: WellFormed(t.children[k], prefix + t.path, compile)
  {
    InsertedAt(n.children, |n.indices|, c);
    hide Local;
  }

  // ---- New children below a node ----

  // What registering `path` at `n` must come to.
  ghost predicate Registers(n: Tree, prefix: string, path: string, h: Handler, r: Result<Tree>, compile: Compiler) {
    && (r.Ok? <==> Valid(path, compile) && !Clash(n, path))
    && (r.Ok? ==>
          && WellFormed(r.value, prefix, compile) && r.value.nType == n.nType
          && (StaticKind(n) ==> First(r.value) == First(n))
          && (n.path != "" ==> r.value.path != "")
          && Adds(n, r.value, path, h))
  }

  lemma AddStaticResult(n: Tree, prefix: string, rest: string, full: string, h: Handler, compile: Compiler) returns (np: nat)
    requires Local(n, prefix, compile) && rest != "" && Addable(n, rest[0])
    ensures np <= |n.indices| <= |n.children| && (n.wildChild ==> n.children != [])
    ensures TokenKind(n) ==> np == 0
    ensures AddStatic(n, rest, full, h, compile)
         == match InsertChild(Bumped(EMPTY_TREE), rest, full, h, compile)
            case Ok(c) => Ok(Reordered(WithStatic(n, rest[0], c), |n.indices|, np))
            case Panic => Panic
  {
    AppendedEmpty(n, prefix, rest[0], compile);
    var j := |n.indices|;
    var m := AppendStatic(n, rest[0]);
    hide GoodToken, Local, Addable, AppendStatic;
    np := NewPos(m, j);
    BumpedChild(m, j);
    var r := InsertChild(Bumped(EMPTY_TREE), rest, full, h, compile);
    hide InsertChild, Reordered, WithStatic;
    assert AddStatic(n, rest, full, h, compile) == Rejoin(m, j, true, r);
    if r.Ok? {
      AppendedStatic(n, prefix, rest[0], r.value, compile);
      RejoinIsReordered(m, j, r.value);
    }
  }

  lemma AppendedEmpty(n: Tree, prefix: string, b: char, compile: Compiler)
    requires Local(n, prefix, compile) && Addable(n, b)
    ensures |n.indices| <= |n.children| && (n.wildChild ==> n.children != [] && Last(n.children).nType != WildcardNode)
    ensures AppendStatic(n, b).children[|n.indices|] == EMPTY_TREE && (TokenKind(n) ==> n.indices == "")
  {
  }

  lemma BumpedChild(m: Tree, j: nat)
    requires j < |m.indices| <= |m.children|
    ensures IncrementPrio(m, j).children[NewPos(m, j)] == Bumped(m.children[j])
  {
  }

  lemma ReplacedReordered(n: Tree, prefix: string, t: Tree, j: nat, np: nat, rest: string, h: Handler, compile: Compiler)
    requires n.path != "" && ReplacedOk(n, prefix, t, rest, h, compile) && np <= j < |t.indices| <= |t.children|
    requires StaticKind(n) || (TokenKind(n) && j == 0)
    ensures ReplacedOk(n, prefix, Reordered(t, j, np), rest, h, compile)
  {
    if StaticKind(n) {
      ReorderedWellFormed(t, prefix, j, np, compile);
    } else {
      assert Reordered(t, 0, 0) == t;
    }
  }

  lemma GraftStatic(n: Tree, prefix: string, rest: string, full: string, h: Handler, compile: Compiler)
    requires WellFormed(n, prefix, compile) && rest != "" && Addable(n, rest[0]) && Tidy(rest)
    requires full == prefix + n.path + rest
    ensures |n.indices| <= |n.children| && (n.wildChild ==> n.children != [])
    ensures Registers(n, prefix, n.path + rest, h, AddStatic(n, rest, full, h, compile), compile)
  {
    ContinueValid(n, prefix, rest, compile);
    ClashIsBelow(n, prefix, rest, compile);
    NoClashBelow(n, prefix, rest, compile);
    var np := AddStaticResult(n, prefix, rest, full, h, compile);
    FreshInsert(Bumped(EMPTY_TREE), prefix + n.path, rest, full, h, compile);
    var r := InsertChild(Bumped(EMPTY_TREE), rest, full, h, compile);
    if r.Ok? {
      StaticAdded(n, prefix, rest[0], r.value, rest, h, compile);
      ReplacedReordered(n, prefix, WithStatic(n, rest[0], r.value), |n.indices|, np, rest, h, compile);
    }
  }

  lemma ParamAdded(n: Tree, prefix: string, c: Tree, rest: string, h: Handler, compile: Compiler)
    requires WellFormed(n, prefix, compile) && StaticKind(n) && n.path != "" && !n.wildChild
    requires WellFormed(c, prefix + n.path, compile) && TokenKind(c) && Only(c, rest, h)
    ensures ReplacedOk(n, prefix, n.(children := n.children + [c], wildChild := true), rest, h, compile)
  {
    var t := n.(children := n.children + [c], wildChild := true);
    ChildAdded(n, t, |n.children|, c, rest, h);
    assert Local(t, prefix, compile);
  }

  lemma NoClashParam(n: Tree, prefix: string, rest: string, compile: Compiler)
    requires WellFormed(n, prefix, compile) && StaticKind(n) && n.path != "" && !n.wildChild
    requires rest != "" && IsParamMark(rest[0])
    ensures !Clash(n, n.path + rest)
  {
    ClashIsBelow(n, prefix, rest, compile);
    forall t, x | Below(n, t, x) ensures !Conflict(t, rest) {
      var k := RouteChild(n, prefix, t, x, compile);
      HeadsDiffer(t, rest);
    }
  }

  lemma GraftParam(n: Tree, prefix: string, rest: string, full: string, h: Handler, compile: Compiler)
    requires WellFormed(n, prefix, compile) && StaticKind(n) && n.path != "" && !n.wildChild
    requires rest != "" && IsToken(rest[..SegmentEnd(rest)]) && Tidy(rest) && full == prefix + n.path + rest
    ensures Registers(n, prefix, n.path + rest, h, InsertChild(n, rest, full, h, compile), compile)
  {
    TokenTail(rest);
    GraftInserted(n, rest, full, h, compile);
    var token, tail := rest[..SegmentEnd(rest)], rest[SegmentEnd(rest)..];
    assert NoStar(rest);
    ContinueValid(n, prefix, rest, compile);
    hide *;
    NoClashParam(n, prefix, rest, compile);
    if ParamToken(token, compile) {
      Concat(prefix + n.path, token, tail);
      InsertParamOnly(n, token, prefix + n.path, tail, full, h, compile);
      var r := InsertParam(n, TokenNode(token, compile), rest, full, h, compile);
      GraftAccepted(n, prefix, rest, h, r, compile);
    } else {
      BadToken(token, tail, compile);
      GraftRefused(n, prefix, rest, h, compile);
    }
  }

  lemma GraftInserted(n: Tree, rest: string, full: string, h: Handler, compile: Compiler)
    requires rest != "" && IsToken(rest[..SegmentEnd(rest)]) && Tidy(rest)
    ensures var token := rest[..SegmentEnd(rest)];
            && (ParamToken(token, compile) ==> 2 <= |TokenNode(token, compile).path| <= |rest|)
            && InsertChild(n, rest, full, h, compile)
            == if ParamToken(token, compile) then InsertParam(n, TokenNode(token, compile), rest, full, h, compile) else Panic
  {
    var token := rest[..SegmentEnd(rest)];
    TokenTail(rest);
    assert "" + rest == rest;
    FirstToken("", rest);
    hide GoodToken, Uncons, Tidy, IsToken, InsertChild, InsertParam;
    InsertChildParam(n, rest, 0, token, full, h, compile);
    if ParamToken(token, compile) { NodeText(token, compile); }
  }

  lemma GraftAccepted(n: Tree, prefix: string, rest: string, h: Handler, r: Result<Tree>, compile: Compiler)
    requires WellFormed(n, prefix, compile) && StaticKind(n) && n.path != "" && !n.wildChild && !Clash(n, n.path + rest)
    requires Valid(n.path + rest, compile) == Valid(rest, compile) && ParamOk(n, prefix + n.path, rest, h, r, compile)
    ensures Registers(n, prefix, n.path + rest, h, r, compile)
  {
    hide WellFormed, HasRoute, Valid, Clash, Only;
    if r.Ok? { ParamAdded(n, prefix, Last(r.value.children), rest, h, compile); }
  }

  lemma GraftRefused(n: Tree, prefix: string, rest: string, h: Handler, compile: Compiler)
    requires !Valid(n.path + rest, compile)
    ensures Registers(n, prefix, n.path + rest, h, Panic, compile)
  {
  }

  // A brace that is never closed: a panic, whatever the node.
  lemma GraftBroken(n: Tree, prefix: string, rest: string, full: string, h: Handler, compile: Compiler)
    requires WellFormed(n, prefix, compile) && StaticKind(n)
    requires rest != "" && IsParamMark(rest[0]) && !IsToken(rest[..SegmentEnd(rest)]) && Tidy(rest)
    ensures !Valid(n.path + rest, compile) && InsertChild(n, rest, full, h, compile).Panic?
  {
    assert Local(n, prefix, compile) && Continues(n, rest);
    hide *;
    BrokenBegins(n, rest, full, h, compile);
    ContinueValid(n, prefix, rest, compile);
  }

  lemma BrokenBegins(n: Tree, rest: string, full: string, h: Handler, compile: Compiler)
    requires rest != "" && IsParamMark(rest[0]) && !IsToken(rest[..SegmentEnd(rest)]) && Tidy(rest)
    ensures !Valid(rest, compile) && InsertChild(n, rest, full, h, compile).Panic?
  {
    assert "" + rest == rest && Plain("");
    hide *;
    BrokenToken(n, "", rest, full, h, compile);
  }

  // A catch-all can never be hung on a node that has text of its own.
  lemma StarClashes(n: Tree, prefix: string, rest: string, compile: Compiler)
    requires WellFormed(n, prefix, compile) && StaticKind(n) && n.path != "" && rest != "" && rest[0] == '*'
    ensures !Valid(n.path + rest, compile) || Clash(n, n.path + rest)
  {
    if Last(n.path) == '/' {
      var s, x := SomeRoute(n, prefix, compile);
      var t := s[|n.path|..];
      RouteBegins(n, prefix, s, x, compile);
      assert s == n.path + t;
      if Below(n, t, x) {
        var j := RouteChild(n, prefix, t, x, compile);
      }
      StarConflict(n.path, t, rest);
    } else {
      StarInvalid(n.path, rest, compile);
    }
  }

  lemma StarFails(n: Tree, rest: string, full: string, h: Handler, compile: Compiler)
    requires rest != "" && rest[0] == '*'
    ensures InsertChild(n, rest, full, h, compile).Panic?
  {
    assert "" + rest == rest;
    FindWildAt("", rest);
  }

  lemma TokensConflict(token: string, s: string, rest: string)
    requires IsToken(token) && '/' !in token && token <= s && (|s| == |token| || s[|token|] == '/')
    requires rest != "" && IsToken(rest[..SegmentEnd(rest)])
    requires !(token <= rest && (|token| >= |rest| || rest[|token|] == '/'))
    ensures Conflict(s, rest)
  {
    hide *;
    FitsNamed(token, s);
    UnconsSegment(rest);
    if rest[..SegmentEnd(rest)] == token { FitsIfSame(token, rest); }
    ConflictNamed(s, rest);
  }

  lemma UnconsSegment(rest: string)
    requires rest != "" && IsToken(rest[..SegmentEnd(rest)])
    ensures Uncons(rest) == Named(rest[..SegmentEnd(rest)], rest[SegmentEnd(rest)..])
  {
  }

  lemma ConflictNamed(p: string, q: string)
    requires Uncons(p).Named? && Uncons(q).Named? && Uncons(p).token != Uncons(q).token
    ensures Conflict(p, q)
  {
    hide Uncons;
  }

  lemma FitsIfSame(token: string, rest: string)
    requires rest[..SegmentEnd(rest)] == token
    ensures token <= rest && (|token| >= |rest| || rest[|token|] == '/')
  {
  }

  // A second, different wildcard where the node has one already.
  lemma TakenClashes(n: Tree, prefix: string, rest: string, compile: Compiler)
    requires WellFormed(n, prefix, compile) && StaticKind(n) && n.path != "" && n.wildChild
    requires rest != "" && IsToken(rest[..SegmentEnd(rest)]) && !TokenFits(Last(n.children), rest)
    ensures Clash(n, n.path + rest)
  {
    var j := |n.children| - 1;
    var c := n.children[j];
    WildToken(n, prefix, compile);
    ChildWellFormed(n, prefix, j, compile);
    WholeToken(c, prefix + n.path, compile);
    hide GoodToken, Uncons, IsToken, HasRoute, WellFormed, Conflict;
    var s, x := SomeRoute(c, prefix + n.path, compile);
    var t := RouteTail(c, prefix + n.path, s, x, compile);
    TokensConflict(c.path, s, rest);
    BelowHas(n, j, s, x);
    assert Continues(n, rest) by { TokenContinues(n, rest); }
    ClashComesUp(n, prefix, rest, s, x, compile);
  }

  lemma TokenContinues(n: Tree, rest: string)
    requires StaticKind(n) && rest != "" && IsToken(rest[..SegmentEnd(rest)])
    ensures Continues(n, rest)
  {
  }

  lemma WildToken(n: Tree, prefix: string, compile: Compiler)
    requires WellFormed(n, prefix, compile) && StaticKind(n) && n.path != "" && n.wildChild
    ensures n.children != [] && TokenKind(Last(n.children)) && ParamToken(Last(n.children).path, compile)
  {
    ChildWellFormed(n, prefix, |n.children| - 1, compile);
    hide GoodToken, Uncons;
  }

  lemma BelowHas(n: Tree, j: nat, s: string, x: Handler)
    requires j < |n.children| && HasRoute(n.children[j], s, x)
    ensures Below(n, s, x)
  {
  }

  lemma GraftRegisters(n: Tree, prefix: string, rest: string, full: string, h: Handler, compile: Compiler)
    requires WellFormed(n, prefix, compile) && Shape(n) && n.path != "" && rest != "" && Tidy(rest)
    requires TokenKind(n) ==> rest[0] == '/' && !Stuck(n, rest)
    requires n.nType != WildcardNode && Chosen(n, rest) < 0 && full == prefix + n.path + rest
    ensures Registers(n, prefix, n.path + rest, h, Graft(n, rest, full, h, compile), compile)
  {
    if !IsMark(rest[0]) {
      GraftStatic(n, prefix, rest, full, h, compile);
    } else if rest[0] == '*' {
      StarClashes(n, prefix, rest, compile);
      StarFails(n, rest, full, h, compile);
    } else if !IsToken(rest[..SegmentEnd(rest)]) {
      GraftBroken(n, prefix, rest, full, h, compile);
    } else if n.wildChild {
      TakenClashes(n, prefix, rest, compile);
    } else {
      GraftParam(n, prefix, rest, full, h, compile);
    }
  }

  // ---- The walk ----

  lemma SplitRoutes(n: Tree, i: nat)
    requires i < |n.path|
    ensures SameRoutes(n, SplitAt(n, i))
  {
    var m := SplitAt(n, i);
    var c := m.children[0];
    assert n.path == m.path + c.path;
    assert forall s, x :: Below(n, s, x) <==> Below(c, s, x);
    forall s, x ensures HasRoute(n, s, x) <==> HasRoute(m, s, x) {
      if m.path <= s {
        var t := s[|m.path|..];
        assert s == m.path + t;
        assert n.path <= s <==> c.path <= t;
        if c.path <= t { assert t[|c.path|..] == s[|n.path|..]; }
        assert HasRoute(m, s, x) <==> HasRoute(c, t, x) by {
          if Below(m, t, x) { assert HasRoute(m.children[0], t, x); }
          if HasRoute(c, t, x) { assert HasRoute(m.children[0], t, x); }
        }
      }
    }
  }

  lemma SplitWellFormed(n: Tree, prefix: string, i: nat, compile: Compiler)
    requires WellFormed(n, prefix, compile) && StaticKind(n) && 0 < i < |n.path|
    ensures var m := SplitAt(n, i); WellFormed(m, prefix, compile) && Shape(m) && SameRoutes(n, m)
  {
    var m := SplitAt(n, i);
    var c := m.children[0];
    assert prefix + n.path == prefix + m.path + c.path;
    assert Local(c, prefix + m.path, compile);
    assert WellFormed(c, prefix + m.path, compile);
    assert Local(m, prefix, compile);
    WellFormedShape(m, prefix, compile);
    SplitRoutes(n, i);
  }

  lemma SameClash(n: Tree, m: Tree, prefix: string, path: string, h: Handler, r: Result<Tree>, compile: Compiler)
    requires SameRoutes(n, m) && n.nType == m.nType && (StaticKind(n) ==> First(n) == First(m))
    requires n.path != "" ==> m.path != ""
    requires Registers(m, prefix, path, h, r, compile)
    ensures Registers(n, prefix, path, h, r, compile)
  {
  }

  lemma SetRouteAdds(n: Tree, prefix: string, h: Handler)
    requires n.route.None?
    ensures Adds(n, SetRoute(n, prefix + n.path, h), n.path, h)
  {
    var t := SetRoute(n, prefix + n.path, h);
    forall s, x ensures HasRoute(t, s, x) <==> HasRoute(n, s, x) || (s == n.path && x == h) {
      if n.path <= s {
        assert Below(n, s[|n.path|..], x) <==> Below(t, s[|n.path|..], x);
      }
    }
  }

  lemma NoOwnClash(n: Tree, prefix: string, compile: Compiler)
    requires WellFormed(n, prefix, compile) && n.path != "" && n.nType != WildcardNode && n.route.None?
    ensures !Clash(n, n.path)
  {
    assert n.path + "" == n.path;
    forall s, x | HasRoute(n, s, x) ensures !Conflict(s, n.path) {
      var t := RouteTail(n, prefix, s, x, compile);
      WildKinds(n, prefix, compile);
      ContinueConflict(n, prefix, t, "", compile);
    }
  }

  lemma SetRouteWellFormed(n: Tree, prefix: string, h: Handler, compile: Compiler)
    requires WellFormed(n, prefix, compile) && n.path != "" && n.nType != WildcardNode
    ensures WellFormed(SetRoute(n, prefix + n.path, h), prefix, compile)
  {
  }

  // Giving a node the route for its own text.
  lemma SetRouteRegisters(n: Tree, prefix: string, h: Handler, compile: Compiler)
    requires WellFormed(n, prefix, compile) && n.path != "" && n.nType != WildcardNode
    ensures Registers(n, prefix, n.path, h, if n.route.Some? then Panic else Ok(SetRoute(n, prefix + n.path, h)), compile)
  {
    if n.route.Some? {
      ConflictReflexive(n.path);
      assert HasRoute(n, n.path, n.route.value);
    } else {
      assert n.path + "" == n.path;
      ContinueValid(n, prefix, "", compile);
      hide WellFormed, HasRoute, Valid;
      NoOwnClash(n, prefix, compile);
      SetRouteWellFormed(n, prefix, h, compile);
      SetRouteAdds(n, prefix, h);
    }
  }

  lemma BumpedSame(n: Tree, prefix: string, compile: Compiler)
    requires WellFormed(n, prefix, compile)
    ensures WellFormed(Bumped(n), prefix, compile) && SameRoutes(n, Bumped(n))
  {
    var t := Bumped(n);
    forall s, x ensures HasRoute(n, s, x) <==> HasRoute(t, s, x) {
      if n.path <= s {
        assert Below(n, s[|n.path|..], x) <==> Below(t, s[|n.path|..], x);
      }
    }
  }

  // Nodes without text lead to a catch-all only.
  lemma CatchAllClashes(n: Tree, prefix: string, path: string, compile: Compiler) returns (s: string, x: Handler)
    requires WellFormed(n, prefix, compile) && CatchAllParent(n) && path != "" && path[0] == '/'
    ensures HasRoute(n, s, x) && Conflict(s, path)
  {
    var c := n.children[0];
    assert LeafLocal(c) && c.route.Some? by { assert Local(c, prefix + n.path, compile); }
    s, x := c.path, c.route.value;
    hide WellFormed, Local;
    assert HasRoute(n, s, x) by {
      assert HasRoute(c, s, x);
      assert s[0..] == s && Below(n, s, x);
    }
    hide HasRoute, CatchAllParent;
    assert Uncons(s) == CatchAll(s);
  }

  lemma CatchAllRefuses(n: Tree, path: string, full: string, h: Handler, compile: Compiler)
    requires Shape(n) && CatchAllParent(n) && StaticKind(n) && path != "" && path[0] == '/'
    ensures AddWalk(n, path, full, h, compile).Panic?
  {
    assert path[0..] == path;
    assert Chosen(n, path) < 0;
  }

  lemma NoTextClashes(n: Tree, prefix: string, path: string, full: string, h: Handler, compile: Compiler)
    requires WellFormed(n, prefix, compile) && Shape(n) && StaticKind(n) && n.path == "" && path != "" && path[0] == '/'
    ensures Clash(n, path) && AddWalk(n, path, full, h, compile).Panic?
  {
    if CatchAllParent(n) {
      var s, x := CatchAllClashes(n, prefix, path, compile);
      CatchAllRefuses(n, path, full, h, compile);
    } else {
      var c := n.children[0];
      var s, x := CatchAllClashes(c, prefix + n.path, path, compile);
      assert s[0..] == s && path[0..] == path;
      assert Below(n, s, x);
      assert HasRoute(n, s, x);
      CatchAllRefuses(Entered(n, 0), path, full, h, compile);
      assert Chosen(n, path) == 0;
    }
  }

  predicate Enters(n: Tree, path: string) {
    && (StaticKind(n) || TokenKind(n))
    && (StaticKind(n) ==> path != "" && path[0] == First(n))
    && (TokenKind(n) ==> n.path <= path && Continues(n, path[|n.path|..]))
  }

  lemma SplitRegisters(n: Tree, prefix: string, path: string, full: string, h: Handler, compile: Compiler)
    requires WellFormed(n, prefix, compile) && Shape(n) && StaticKind(n) && Enters(n, path)
    requires CommonPrefix(path, n.path) < |n.path| && Tidy(path) && full == prefix + path
    ensures Registers(n, prefix, path, h, AddWalk(n, path, full, h, compile), compile)
  {
    var i := CommonPrefix(path, n.path);
    var m := SplitAt(n, i);
    SplitWellFormed(n, prefix, i, compile);
    var rest := path[i..];
    Rejoined(path, i);
    if i == |path| {
      assert path[..i] == path;
      SetRouteRegisters(m, prefix, h, compile);
    } else {
      Concat(prefix, m.path, rest);
      PlainTidy(m.path, rest);
      assert m.indices[0] != rest[0];
      GraftRegisters(m, prefix, rest, full, h, compile);
    }
    SameClash(n, m, prefix, path, h, AddWalk(n, path, full, h, compile), compile);
  }

  // The chosen child is the one that owns the next byte, and may be entered.
  lemma ChosenEnters(n: Tree, prefix: string, rest: string, compile: Compiler)
    requires WellFormed(n, prefix, compile) && Shape(n) && n.nType != WildcardNode && rest != "" && Continues(n, rest)
    requires Chosen(n, rest) >= 0
    ensures var j := Chosen(n, rest);
            Enters(Entered(n, j), rest) && OwnsByte(n, j, rest) && n.children[j].nType != WildcardNode
  {
    var j := Chosen(n, rest);
    ChildWellFormed(n, prefix, j, compile);
    WildKinds(n.children[j], prefix + n.path, compile);
    if TokenKind(n.children[j]) {
      ChosenToken(n, prefix, rest, j, compile);
    } else {
      ChosenStatic(n, prefix, rest, j, compile);
    }
  }

  lemma ChosenToken(n: Tree, prefix: string, rest: string, j: nat, compile: Compiler)
    requires WellFormed(n, prefix, compile) && Shape(n) && n.nType != WildcardNode && rest != ""
    requires j == Chosen(n, rest) && TokenKind(n.children[j])
    ensures Enters(Entered(n, j), rest) && OwnsByte(n, j, rest)
  {
    var c := n.children[j];
    ChildWellFormed(n, prefix, j, compile);
    WholeToken(c, prefix + n.path, compile);
    TokenPlace(n, prefix, rest, j, compile);
    hide *;
    FitsNamed(c.path, rest);
    TokenEnters(n, j, rest);
  }

  lemma TokenPlace(n: Tree, prefix: string, rest: string, j: nat, compile: Compiler)
    requires WellFormed(n, prefix, compile) && Shape(n) && n.nType != WildcardNode && rest != ""
    requires j == Chosen(n, rest) && TokenKind(n.children[j])
    ensures StaticKind(n) && j >= |n.indices| && TokenFits(n.children[j], rest)
  {
    hide GoodToken, IsToken;
  }

  // A pattern that a token fits starts with that token.
  lemma FitsNamed(token: string, rest: string)
    requires IsToken(token) && '/' !in token && token <= rest && (|token| >= |rest| || rest[|token|] == '/')
    ensures Uncons(rest) == Named(token, rest[|token|..]) && IsParamMark(rest[0])
    ensures rest == token + rest[|token|..] && (rest[|token|..] == "" || rest[|token|..][0] == '/')
  {
    Rejoined(rest, |token|);
    UnconsToken(token, rest[|token|..]);
  }

  lemma TokenEnters(n: Tree, j: nat, rest: string)
    requires Shape(n) && StaticKind(n) && |n.indices| <= j < |n.children| && TokenKind(n.children[j])
    requires rest != "" && IsParamMark(rest[0]) && Uncons(rest).Named?
    requires n.children[j].path <= rest
    requires var t := rest[|n.children[j].path|..]; t == "" || t[0] == '/'
    ensures Enters(Entered(n, j), rest) && OwnsByte(n, j, rest)
  {
    hide Uncons;
  }

  lemma ChosenStatic(n: Tree, prefix: string, rest: string, j: nat, compile: Compiler)
    requires WellFormed(n, prefix, compile) && Shape(n) && n.nType != WildcardNode && rest != "" && Continues(n, rest)
    requires j == Chosen(n, rest) && !TokenKind(n.children[j])
    ensures Enters(Entered(n, j), rest) && OwnsByte(n, j, rest) && n.children[j].nType != WildcardNode
  {
    if TokenKind(n) {
      ChosenBehind(n, prefix, rest, j, compile);
    } else {
      ChosenIndexed(n, prefix, rest, j, compile);
    }
  }

  // The child behind a parameter ...
  lemma ChosenBehind(n: Tree, prefix: string, rest: string, j: nat, compile: Compiler)
    requires WellFormed(n, prefix, compile) && Shape(n) && TokenKind(n) && rest != "" && rest[0] == '/'
    requires j == Chosen(n, rest)
    ensures Enters(Entered(n, j), rest) && OwnsByte(n, j, rest) && n.children[j].nType != WildcardNode
  {
    assert Local(n, prefix, compile);
    hide GoodToken, Uncons, WellFormed, Shape;
  }

  // ... and one found by its index.
  lemma ChosenIndexed(n: Tree, prefix: string, rest: string, j: nat, compile: Compiler)
    requires WellFormed(n, prefix, compile) && Shape(n) && StaticKind(n) && rest != ""
    requires j == Chosen(n, rest) && !TokenKind(n.children[j])
    ensures Enters(Entered(n, j), rest) && OwnsByte(n, j, rest) && n.children[j].nType != WildcardNode
  {
    IndexedChild(n, prefix, rest, j, compile);
    hide GoodToken, Uncons, WellFormed, Shape, Local;
  }

  // A child that is not a parameter's is chosen by its index.
  lemma IndexedChild(n: Tree, prefix: string, rest: string, j: nat, compile: Compiler)
    requires WellFormed(n, prefix, compile) && Shape(n) && StaticKind(n) && rest != ""
    requires j == Chosen(n, rest) && !TokenKind(n.children[j])
    ensures j < |n.indices| && n.indices[j] == rest[0] == First(n.children[j]) && n.children[j].nType == StaticNode
    ensures rest[0] != '*'
  {
    assert Local(n, prefix, compile);
    hide GoodToken, Uncons, WellFormed, Shape;
  }

  lemma DescendRegisters(n: Tree, prefix: string, j: nat, moves: bool, rest: string, h: Handler, r: Result<Tree>, compile: Compiler)
    requires WellFormed(n, prefix, compile) && Shape(n) && n.path != "" && rest != "" && Continues(n, rest)
    requires j < |n.children| && OwnsByte(n, j, rest) && n.children[j].nType != WildcardNode
    requires moves ==> j < |n.indices|
    requires Registers(n.children[j], prefix + n.path, rest, h, r, compile)
    ensures Registers(n, prefix, n.path + rest, h, Rejoin(n, j, moves, r), compile)
  {
    ContinueValid(n, prefix, rest, compile);
    ClashIsBelow(n, prefix, rest, compile);
    ClashInChild(n, prefix, rest, j, compile);
    if r.Ok? {
      ChildReplaced(n, prefix, j, r.value, rest, h, compile);
      if moves {
        RejoinIsReordered(n, j, r.value);
        ReplacedReordered(n, prefix, n.(children := n.children[j := r.value]), j, NewPos(n, j), rest, h, compile);
      }
    }
  }

  lemma ChildWellFormed(n: Tree, prefix: string, j: nat, compile: Compiler)
    requires WellFormed(n, prefix, compile) && j < |n.children| && (TokenKind(n) ==> j == 0)
    ensures WellFormed(n.children[j], prefix + n.path, compile)
  {
  }

  lemma ChosenContinues(n: Tree, prefix: string, rest: string, compile: Compiler)
    requires WellFormed(n, prefix, compile) && Shape(n) && n.nType != WildcardNode && rest != ""
    requires TokenKind(n) ==> rest[0] == '/'
    requires Chosen(n, rest) >= 0
    ensures Continues(n, rest)
  {
    var c := n.children[Chosen(n, rest)];
    ChildWellFormed(n, prefix, Chosen(n, rest), compile);
    assert Local(c, prefix + n.path, compile);
  }

  lemma NoTextStatic(n: Tree, prefix: string, path: string, compile: Compiler)
    requires WellFormed(n, prefix, compile) && Enters(n, path) && n.path == ""
    ensures StaticKind(n) && path != "" && path[0] == '/'
  {
    hide Uncons;
  }

  // A walk comes to a parameter node with its whole token.
  lemma TokenWhole(n: Tree, prefix: string, path: string, compile: Compiler)
    requires WellFormed(n, prefix, compile) && Enters(n, path)
    ensures TokenKind(n) ==> CommonPrefix(path, n.path) == |n.path|
  {
    if TokenKind(n) { CommonWhole(path, n.path); }
  }

  lemma {:induction false} CommonWhole(path: string, text: string)
    requires text <= path
    ensures CommonPrefix(path, text) == |text|
  {
    if text != "" {
      assert text[1..] <= path[1..];
      CommonWhole(path[1..], text[1..]);
    }
  }

  // What is left of a pattern below a node.
  lemma RestBelow(n: Tree, prefix: string, path: string, compile: Compiler)
    requires WellFormed(n, prefix, compile) && Enters(n, path) && Tidy(path) && CommonPrefix(path, n.path) == |n.path| < |path|
    ensures path == n.path + path[|n.path|..] && Tidy(path[|n.path|..])
    ensures TokenKind(n) ==> path[|n.path|] == '/'
  {
    var rest := path[|n.path|..];
    EntersKind(n, path);
    if StaticKind(n) {
      Rejoined(path, |n.path|);
      PlainText(n, prefix, compile);
      PlainTidy(n.path, rest);
    } else {
      WholeToken(n, prefix, compile);
      hide *;
      Rejoined(path, |n.path|);
      TokenTidy(n.path, rest);
    }
  }

  lemma EntersKind(n: Tree, path: string)
    requires Enters(n, path) && CommonPrefix(path, n.path) == |n.path| < |path|
    ensures n.path <= path && (StaticKind(n) || TokenKind(n)) && (TokenKind(n) ==> path[|n.path|] == '/')
  {
  }

  lemma WholeToken(n: Tree, prefix: string, compile: Compiler)
    requires WellFormed(n, prefix, compile) && TokenKind(n)
    ensures IsToken(n.path) && '/' !in n.path && ParamToken(n.path, compile)
  {
  }

  lemma PlainText(n: Tree, prefix: string, compile: Compiler)
    requires WellFormed(n, prefix, compile) && StaticKind(n)
    ensures Plain(n.path)
  {
  }

  lemma TokenTidy(token: string, rest: string)
    requires IsToken(token) && '/' !in token && (rest == "" || rest[0] == '/')
    ensures Tidy(token + rest) == Tidy(rest)
  {
    UnconsToken(token, rest);
  }

  lemma WalkIsBelow(n: Tree, path: string, full: string, h: Handler, compile: Compiler)
    requires Shape(n) && CommonPrefix(path, n.path) == |n.path| < |path|
    ensures AddWalk(n, path, full, h, compile) == AddBelow(n, path[|n.path|..], full, h, compile)
    ensures n.path + path[|n.path|..] == path
  {
    hide AddBelow, Shape;
  }
}
