// Exactly when a registration does what it should: it succeeds if and only if
// the pattern is valid and conflicts with no route, and then a lookup can come
// to the routes there were and the new one, and to no others.
module SuffixRight {
  import opened Wrappers
  import opened Patterns
  import opened RouteTree
  import opened RouteSet
  import opened TreeInsert
  import opened SuffixFits
  import opened TreeWalk
  import opened Registration
  import opened RegexSuffix
  import opened SuffixWalks
  import opened OrderIndependence

  // `t` serves the routes of `n` and the new one.
  ghost predicate Exactly(n: Tree, prefix: string, path: string, h: Handler, t: Tree) {
    forall s, x :: Serving(t, prefix, s, x) <==> HasRoute(n, s, x) || (s == path && x == h)
  }

  ghost predicate Right(n: Tree, prefix: string, path: string, h: Handler, r: Result<Tree>, compile: Compiler) {
    && (r.Ok? <==> Valid(path, compile) && !Clash(n, path))
    && (r.Ok? ==> Exactly(n, prefix, path, h, r.value))
  }

  // ---- The child that is taken over ----

  // ---- When it fits ----

  // ---- When it does not ----

  // A route that does not survive.
  lemma LostRoute(c: Tree, prefix: string, rest: string, compile: Compiler) returns (s: string, x: Handler)
    requires WellFormed(c, prefix, compile) && StaticKind(c) && rest != "" && rest[0] == '/'
    requires !Fits(c, rest) && !Refused(c, rest)
    ensures HasRoute(c, s, x) && !(NewText(rest) == c.path && Survives(c, rest, s, x))
  {
    var w := FindWild(rest);
    TextCut(rest);
    hide FindWild, NewText;
    if NewText(rest) != c.path {
      s, x := SomeRoute(c, prefix, compile);
    } else if w.start < 0 {
      s, x := c.path, c.route.value;
    } else if rest[w.start] == '*' {
      s, x := ChildRoute(c, prefix, 0, compile);
    } else {
      hide WellFormed, HasRoute, Clash;
      s, x := MarkedRoute(c, prefix, compile);
    }
  }

  lemma ChildRoute(n: Tree, prefix: string, j: nat, compile: Compiler) returns (s: string, x: Handler)
    requires WellFormed(n, prefix, compile) && j < |n.children| && (TokenKind(n) ==> j == 0)
    ensures n.path < s && HasRoute(n, s, x) && HasRoute(n.children[j], s[|n.path|..], x)
  {
    ChildWellFormed(n, prefix, j, compile);
    var t;
    t, x := SomeRoute(n.children[j], prefix + n.path, compile);
    s := RouteAbove(n, prefix, j, t, x, compile);
  }

  lemma LastIs(n: Tree)
    requires n.children != []
    ensures Last(n.children) == n.children[|n.children| - 1]
  {
  }

  // A route that goes on with a token.
  lemma MarkedRoute(c: Tree, prefix: string, compile: Compiler) returns (s: string, x: Handler)
    requires WellFormed(c, prefix, compile) && StaticKind(c) && c.path != "" && c.wildChild
    ensures c.path < s && HasRoute(c, s, x) && IsMark(s[|c.path|])
  {
    assert c.children != [] && !TokenKind(c);
    hide *;
    s, x := ChildRoute(c, prefix, |c.children| - 1, compile);
    LastIs(c);
    WildcardBelow(c, prefix, s[|c.path|..], x, compile);
    assert s[|c.path|] == s[|c.path|..][0];
  }

  lemma RouteAbove(n: Tree, prefix: string, j: nat, t: string, x: Handler, compile: Compiler) returns (s: string)
    requires WellFormed(n, prefix, compile) && j < |n.children| && HasRoute(n.children[j], t, x)
    ensures t != "" && s == n.path + t && n.path < s && s[|n.path|..] == t && HasRoute(n, s, x)
  {
    s := n.path + t;
    Cut(n.path, t);
    ChildOwns(n, prefix, j, t, x, compile);
    assert Below(n, t, x);
  }

  lemma MisfitWrong(c: Tree, prefix: string, rest: string, h: Handler, t: Tree, compile: Compiler)
    requires WellFormed(c, prefix, compile) && StaticKind(c) && rest != "" && rest[0] == '/'
    requires TakesOver(c, prefix, rest, h, t) && !Fits(c, rest) && !Refused(c, rest)
    ensures Clash(c, rest) || !Exactly(c, prefix, rest, h, t)
  {
    var s, x := LostRoute(c, prefix, rest, compile);
    hide WellFormed, HasRoute, Serving, Survives, Conflict, Fits;
    if Exactly(c, prefix, rest, h, t) {
      assert Serving(t, prefix, s, x);
      ConflictReflexive(rest);
    }
  }

  lemma TakenRight(c: Tree, prefix: string, rest: string, h: Handler, compile: Compiler)
    requires WellFormed(c, prefix, compile) && StaticKind(c) && rest != "" && rest[0] == '/' && Tidy(rest)
    ensures Right(c, prefix, rest, h, InsertChild(Bumped(c), rest, prefix + rest, h, compile), compile)
       <==> (Valid(rest, compile) ==> Fits(c, rest))
  {
    var r := InsertChild(Bumped(c), rest, prefix + rest, h, compile);
    TakenOk(c, prefix, rest, h, compile);
    TakenOver(c, prefix, rest, h, compile);
    hide InsertChild, WellFormed, Valid, TakesOver, Exactly, Tidy, Clash, Refused;
    if r.Ok? {
      if Fits(c, rest) {
        FitsRegisters(c, prefix, rest, h, compile);
        RegistersRight(c, prefix, rest, h, r, compile);
      } else {
        MisfitWrong(c, prefix, rest, h, r.value, compile);
      }
    } else if Valid(rest, compile) {
      RefusedFits(c, rest);
    }
  }

  // ---- The way back up ----

  // What the new child serves is not for another child of `n`, nor for `n`.
  ghost predicate Inside(n: Tree, prefix: string, j: nat, c: Tree) {
    forall s, x :: Serving(c, prefix + n.path, s, x) ==>
      s != "" && forall k | 0 <= k < |n.children| && k != j :: !HasRoute(n.children[k], s, x)
  }

  // Nor is the new route.
  ghost predicate Unclaimed(n: Tree, j: nat, rest: string) {
    rest != "" && forall k, x | 0 <= k < |n.children| && k != j :: !HasRoute(n.children[k], rest, x)
  }

  lemma OwnerPlaces(n: Tree, prefix: string, j: nat, rest: string, compile: Compiler)
    requires WellFormed(n, prefix, compile) && j < |n.children| && OwnsByte(n, j, rest) && n.path != ""
    ensures Unclaimed(n, j, rest)
  {
    forall k, x | 0 <= k < |n.children| && k != j ensures !HasRoute(n.children[k], rest, x) {
      if HasRoute(n.children[k], rest, x) {
        ChildOwns(n, prefix, k, rest, x, compile);
        OwnersMeet(n, prefix, j, k, rest, compile);
      }
    }
  }

  lemma OwnersMeet(n: Tree, prefix: string, j: nat, k: nat, s: string, compile: Compiler)
    requires Local(n, prefix, compile) && n.path != "" && j < |n.children| && k < |n.children|
    requires OwnsByte(n, j, s) && OwnsByte(n, k, s)
    ensures j == k
  {
    hide GoodToken;
  }

  lemma RoutesAbove(n: Tree, prefix: string, j: nat, s: string, x: Handler)
    requires j < |n.children| && s != ""
    ensures HasRoute(n, n.path + s, x) <==>
              HasRoute(n.children[j], s, x) || exists k :: 0 <= k < |n.children| && k != j && HasRoute(n.children[k], s, x)
  {
    Cut(n.path, s);
    HasRouteAt(n, n.path + s, x);
    hide HasRoute;
  }

  lemma OwnStays(n: Tree, prefix: string, j: nat, c: Tree, t: Tree, x: Handler, compile: Compiler)
    requires WellFormed(n, prefix, compile) && j < |n.children| && Replaces(n, prefix, j, c, t) && Inside(n, prefix, j, c)
    ensures Serving(t, prefix, n.path, x) <==> HasRoute(n, n.path, x)
  {
    assert Local(n, prefix, compile);
    ServingAt(t, prefix, n.path, x);
    HasRouteAt(n, n.path, x);
    assert n.path[|n.path|..] == "";
    forall k | 0 <= k < |n.children| ensures !HasRoute(n.children[k], "", x) && !Serving(n.children[k], prefix + n.path, "", x) {
      ChildServes(n, prefix, k, "", x, compile);
      if HasRoute(n.children[k], "", x) { ChildOwns(n, prefix, k, "", x, compile); }
    }
    hide Serving, HasRoute, WellFormed;
  }

  // Nothing else is served above.
  lemma OnlyAbove(n: Tree, prefix: string, t: Tree, s: string, x: Handler)
    requires t.path == n.path
    ensures Serving(t, prefix, s, x) || HasRoute(n, s, x) ==> s == n.path || (n.path < s && s == n.path + s[|n.path|..])
  {
  }

  lemma ExactlyAbove(n: Tree, prefix: string, j: nat, rest: string, h: Handler, c: Tree, t: Tree, compile: Compiler)
    requires WellFormed(n, prefix, compile) && j < |n.children| && Replaces(n, prefix, j, c, t)
    requires Inside(n, prefix, j, c) && Unclaimed(n, j, rest)
    ensures Exactly(n, prefix, n.path + rest, h, t) <==> Exactly(n.children[j], prefix + n.path, rest, h, c)
  {
    if Exactly(n.children[j], prefix + n.path, rest, h, c) {
      forall s, x ensures Serving(t, prefix, s, x) <==> HasRoute(n, s, x) || (s == n.path + rest && x == h) {
        ExactlyUp(n, prefix, j, rest, h, c, t, s, x, compile);
      }
    }
    if Exactly(n, prefix, n.path + rest, h, t) {
      forall s, x ensures Serving(c, prefix + n.path, s, x) <==> HasRoute(n.children[j], s, x) || (s == rest && x == h) {
        ExactlyDown(n, prefix, j, rest, h, c, t, s, x, compile);
      }
    }
  }

  lemma ExactlyUp(n: Tree, prefix: string, j: nat, rest: string, h: Handler, c: Tree, t: Tree, s: string, x: Handler, compile: Compiler)
    requires WellFormed(n, prefix, compile) && j < |n.children| && Replaces(n, prefix, j, c, t)
    requires Inside(n, prefix, j, c) && Unclaimed(n, j, rest) && Exactly(n.children[j], prefix + n.path, rest, h, c)
    ensures Serving(t, prefix, s, x) <==> HasRoute(n, s, x) || (s == n.path + rest && x == h)
  {
    OnlyAbove(n, prefix, t, s, x);
    OwnStays(n, prefix, j, c, t, x, compile);
    hide WellFormed, Serving, HasRoute;
    if n.path < s {
      var tail := s[|n.path|..];
      if s == n.path + tail {
        ServedAbove(n, prefix, j, c, t, tail, x, compile);
        RoutesAbove(n, prefix, j, tail, x);
        PrefixFree(n.path, tail, rest);
      }
    }
    Cut(n.path, rest);
  }

  lemma ExactlyDown(n: Tree, prefix: string, j: nat, rest: string, h: Handler, c: Tree, t: Tree, s: string, x: Handler, compile: Compiler)
    requires WellFormed(n, prefix, compile) && j < |n.children| && Replaces(n, prefix, j, c, t)
    requires Inside(n, prefix, j, c) && Unclaimed(n, j, rest) && Exactly(n, prefix, n.path + rest, h, t)
    ensures Serving(c, prefix + n.path, s, x) <==> HasRoute(n.children[j], s, x) || (s == rest && x == h)
  {
    if HasRoute(n.children[j], s, x) {
      OneOwner(n, prefix, j, j, s, x, x, compile);
      forall k | 0 <= k < |n.children| && HasRoute(n.children[k], s, x) ensures k == j {
        OneOwner(n, prefix, j, k, s, x, x, compile);
      }
    }
    hide WellFormed, Serving, HasRoute;
    if s != "" {
      ServedAbove(n, prefix, j, c, t, s, x, compile);
      RoutesAbove(n, prefix, j, s, x);
      PrefixFree(n.path, s, rest);
    }
  }

  lemma RightAbove(n: Tree, prefix: string, j: nat, rest: string, h: Handler, r: Result<Tree>, whole: Result<Tree>, compile: Compiler)
    requires WellFormed(n, prefix, compile) && n.path != "" && Continues(n, rest)
    requires j < |n.children| && n.children[j].nType != WildcardNode && OwnsByte(n, j, rest)
    requires r.Ok? == whole.Ok?
    requires r.Ok? ==> Replaces(n, prefix, j, r.value, whole.value) && Inside(n, prefix, j, r.value)
    ensures Right(n, prefix, n.path + rest, h, whole, compile) <==> Right(n.children[j], prefix + n.path, rest, h, r, compile)
  {
    ContinueValid(n, prefix, rest, compile);
    ClashIsBelow(n, prefix, rest, compile);
    ClashInChild(n, prefix, rest, j, compile);
    OwnerPlaces(n, prefix, j, rest, compile);
    hide WellFormed, Valid, Clash, Exactly, Replaces, Inside, Unclaimed, OwnsByte;
    if r.Ok? { ExactlyAbove(n, prefix, j, rest, h, r.value, whole.value, compile); }
  }

  // What serves nothing but the new route and what the child had.
  lemma TakenInside(n: Tree, prefix: string, rest: string, h: Handler, t: Tree, compile: Compiler)
    requires WellFormed(n, prefix, compile) && |n.children| == 1 && rest != ""
    requires TakesOver(n.children[0], prefix + n.path, rest, h, t)
    ensures Inside(n, prefix, 0, t)
  {
    forall s, x | Serving(t, prefix + n.path, s, x) ensures s != "" {
      if HasRoute(n.children[0], s, x) { ChildOwns(n, prefix, 0, s, x, compile); }
    }
  }

  // What begins as the child did.
  lemma SameInside(n: Tree, prefix: string, j: nat, c: Tree, compile: Compiler)
    requires WellFormed(n, prefix, compile) && n.path != "" && j < |n.children| && c.path == n.children[j].path && c.path != ""
    requires n.children[j].nType != WildcardNode
    ensures Inside(n, prefix, j, c)
  {
    forall s, x | Serving(c, prefix + n.path, s, x)
      ensures s != "" && forall k | 0 <= k < |n.children| && k != j :: !HasRoute(n.children[k], s, x)
    {
      assert c.path <= s && s[0] == c.path[0];
      forall k | 0 <= k < |n.children| && k != j ensures !HasRoute(n.children[k], s, x) {
        if HasRoute(n.children[k], s, x) {
          ChildOwns(n, prefix, k, s, x, compile);
          FirstByteOwns(n, prefix, j, k, s, compile);
        }
      }
    }
  }

  lemma FirstByteOwns(n: Tree, prefix: string, j: nat, k: nat, s: string, compile: Compiler)
    requires WellFormed(n, prefix, compile) && n.path != "" && j < |n.children| && k < |n.children| && OwnsByte(n, k, s)
    requires n.children[j].nType != WildcardNode && n.children[j].path != "" && s[0] == n.children[j].path[0]
    ensures j == k
  {
    ChildWellFormed(n, prefix, j, compile);
    assert Local(n, prefix, compile) && Local(n.children[j], prefix + n.path, compile);
    hide WellFormed, CleanName;
  }

  // ---- Exactly when a registration is right ----

  // At the token itself.
  lemma StuckRight(n: Tree, prefix: string, rest: string, h: Handler, compile: Compiler)
    requires WellFormed(n, prefix, compile) && Shape(n) && Stuck(n, rest) && rest[0] == '/' && Tidy(rest) && n.path != ""
    ensures Right(n, prefix, n.path + rest, h, AddBelow(n, rest, prefix + n.path + rest, h, compile), compile)
       <==> (Valid(rest, compile) ==> Fits(n.children[0], rest))
  {
    var c, q := n.children[0], prefix + n.path;
    StuckContext(n, prefix, rest, compile);
    assert c.nType != WildcardNode;
    hide *;
    StuckIs(n, rest, q + rest, h, compile);
    TakenOver(c, q, rest, h, compile);
    TakenRight(c, q, rest, h, compile);
    var r, whole := InsertChild(Bumped(c), rest, q + rest, h, compile), AddBelow(n, rest, prefix + n.path + rest, h, compile);
    if r.Ok? {
      TakenReplaces(n, prefix, r.value, rest[0]);
      TakenInside(n, prefix, rest, h, r.value, compile);
    }
    RightAbove(n, prefix, 0, rest, h, r, whole, compile);
  }

  lemma RegistersRight(n: Tree, prefix: string, path: string, h: Handler, r: Result<Tree>, compile: Compiler)
    requires Registers(n, prefix, path, h, r, compile)
    ensures Right(n, prefix, path, h, r, compile)
  {
    if r.Ok? {
      RoutesServed(r.value, prefix, compile);
      hide Serving, HasRoute, WellFormed, Clash, Valid;
    }
  }

  // Nodes without text have no parameter below them.
  lemma NoTextNoSecond(n: Tree, prefix: string, path: string, compile: Compiler)
    requires WellFormed(n, prefix, compile) && Shape(n) && StaticKind(n) && n.path == ""
    ensures !SecondSuffix(n, path)
  {
    assert CatchAllParent(n) || CatchAllPrefix(n);
    if CatchAllPrefix(n) { ParentNoSecond(Bumped(n.children[0]), path); }
    if CatchAllParent(n) { ParentNoSecond(n, path); }
  }

  lemma ParentNoSecond(n: Tree, path: string)
    requires Shape(n) && CatchAllParent(n) && StaticKind(n)
    ensures !SecondSuffix(n, path)
  {
    assert path != "" ==> IndexOf(n.indices, path[0]) < 0;
  }

  // For every pattern and every well-formed tree: a registration succeeds
  // exactly when it should and then adds exactly the new route, if and only if
  // it does not come to a child its suffix does not fit.
  lemma {:induction false} WalkRight(n: Tree, prefix: string, path: string, h: Handler, compile: Compiler)
    requires WellFormed(n, prefix, compile) && Shape(n) && Enters(n, path) && Tidy(path)
    ensures Right(n, prefix, path, h, AddWalk(n, path, prefix + path, h, compile), compile) <==> !Misfits(n, path, compile)
    decreases Size(n)
  {
    hide WellFormed, AddWalk, Misfits, SecondSuffix, Right, Registers;
    if !Misfits(n, path, compile) {
      WalkRegisters(n, prefix, path, prefix + path, h, compile);
      RegistersRight(n, prefix, path, h, AddWalk(n, path, prefix + path, h, compile), compile);
    } else {
      MisfitsSecond(n, path, compile);
      if n.path == "" {
        NoTextStatic(n, prefix, path, compile);
        NoTextNoSecond(n, prefix, path, compile);
      }
      SecondGoesOn(n, path);
      RestBelow(n, prefix, path, compile);
      WalkIsBelow(n, path, prefix + path, h, compile);
      Concat(prefix, n.path, path[|n.path|..]);
      MisfitsIs(n, path, compile);
      BelowRight(n, prefix, path[|n.path|..], h, compile);
    }
  }

  lemma {:induction false} BelowRight(n: Tree, prefix: string, rest: string, h: Handler, compile: Compiler)
    requires WellFormed(n, prefix, compile) && Shape(n) && n.path != "" && rest != "" && Tidy(rest) && SecondBelow(n, rest)
    requires (StaticKind(n) || TokenKind(n)) && (TokenKind(n) ==> rest[0] == '/')
    ensures Right(n, prefix, n.path + rest, h, AddBelow(n, rest, prefix + n.path + rest, h, compile), compile)
       <==> !MisfitsBelow(n, rest, compile)
    decreases Size(n), 0
  {
    hide WellFormed, AddWalk, Misfits, SecondSuffix, Rejoin, InsertChild, Right, Enters;
    if Stuck(n, rest) {
      StuckRight(n, prefix, rest, h, compile);
    } else {
      var j, moves := Chosen(n, rest), Moves(n, rest);
      var c, q := Entered(n, j), prefix + n.path;
      ChosenContinues(n, prefix, rest, compile);
      ChosenEnters(n, prefix, rest, compile);
      ChildWellFormed(n, prefix, j, compile);
      BumpedSame(n.children[j], q, compile);
      WalkRight(c, q, rest, h, compile);
      WalkStrands(c, q, rest, h, compile);
      BelowIs(n, rest, q + rest, h, compile);
      var r := AddWalk(c, rest, q + rest, h, compile);
      BumpedRight(n.children[j], q, rest, h, r, compile);
      hide Replaces, Inside, OwnsByte, Continues, SameNode;
      if r.Ok? {
        RejoinReplaces(n, prefix, j, moves, r.value, compile);
        SecondHasText(c, q, rest, compile);
        SameText(c, r.value);
        SameInside(n, prefix, j, r.value, compile);
      } else {
        RejoinPanics(n, j, moves);
      }
      RightAbove(n, prefix, j, rest, h, r, Rejoin(n, j, moves, r), compile);
    }
  }

  lemma SecondHasText(c: Tree, prefix: string, rest: string, compile: Compiler)
    requires WellFormed(c, prefix, compile) && Shape(c) && SecondSuffix(c, rest) && Enters(c, rest)
    ensures c.path != ""
  {
    if c.path == "" {
      NoTextStatic(c, prefix, rest, compile);
      NoTextNoSecond(c, prefix, rest, compile);
    }
  }

  lemma SameText(c: Tree, t: Tree)
    requires SameNode(c, t)
    ensures t.path == c.path
  {
  }

  lemma BumpedRight(n: Tree, prefix: string, path: string, h: Handler, r: Result<Tree>, compile: Compiler)
    requires SameRoutes(n, Bumped(n))
    ensures Right(n, prefix, path, h, r, compile) <==> Right(Bumped(n), prefix, path, h, r, compile)
  {
    hide HasRoute, Serving, Valid, Conflict;
  }

  // The same for a method's whole tree.
  lemma PatternRight(root: Tree, pattern: string, h: Handler, compile: Compiler)
    requires Registered(root, compile) && Shape(root) && Rooted(pattern)
    ensures Right(root, "", pattern, h, AddPattern(root, pattern, h, compile), compile) <==> RootFits(root, pattern, compile)
  {
    if RootFits(root, pattern, compile) {
      AddPatternRegisters(root, pattern, h, compile);
      AddedRight(root, pattern, h, AddPattern(root, pattern, h, compile), compile);
    } else {
      PatternWrong(root, pattern, h, compile);
    }
  }

  lemma PatternWrong(root: Tree, pattern: string, h: Handler, compile: Compiler)
    requires Registered(root, compile) && Shape(root) && Rooted(pattern) && !RootFits(root, pattern, compile)
    ensures !Right(root, "", pattern, h, AddPattern(root, pattern, h, compile), compile)
  {
    var n, max := Bumped(root), RaisedMax(root.maxParams, CountParams(pattern));
    MisfitEnters(root, pattern, compile);
    AddPatternCases(root, pattern, h, compile);
    assert "" + pattern == pattern;
    hide *;
    WalkRight(n, "", pattern, h, compile);
    BumpedRight(root, "", pattern, h, AddWalk(n, pattern, pattern, h, compile), compile);
    LabelRight(root, pattern, h, AddWalk(n, pattern, pattern, h, compile), max, compile);
  }

  lemma MisfitEnters(root: Tree, pattern: string, compile: Compiler)
    requires Registered(root, compile) && Shape(root) && Rooted(pattern) && !RootFits(root, pattern, compile)
    ensures var n := Bumped(root);
            && !(root.path == "" && root.indices == "") && SameRoutes(root, n) && Tidy(pattern)
            && WellFormed(n, "", compile) && Shape(n) && Enters(n, pattern) && Misfits(n, pattern, compile)
  {
    RootIs(root, compile);
    BumpedSame(root, "", compile);
    hide WellFormed, Misfits, SameRoutes, Registered;
    RootEnters(Bumped(root), pattern, compile);
  }

  lemma AddedNotFresh(root: Tree, t: Tree, pattern: string, h: Handler)
    requires Adds(root, t, pattern, h)
    ensures !Fresh(t)
  {
    assert HasRoute(t, pattern, h);
    if Fresh(t) { FreshHasNoRoute(t); }
  }

  lemma AddedRight(root: Tree, pattern: string, h: Handler, r: Result<Tree>, compile: Compiler)
    requires r.Ok? <==> Valid(pattern, compile) && !Clash(root, pattern)
    requires r.Ok? ==> Registered(r.value, compile) && Adds(root, r.value, pattern, h)
    ensures Right(root, "", pattern, h, r, compile)
  {
    if r.Ok? {
      var t := r.value;
      hide Valid, Clash;
      AddedNotFresh(root, t, pattern, h);
      RoutesServed(t, "", compile);
      hide Serving, HasRoute, WellFormed;
    }
  }

  lemma LabelRight(root: Tree, pattern: string, h: Handler, r: Result<Tree>, maxParams: nat, compile: Compiler)
    ensures Right(root, "", pattern, h, r, compile) <==>
              Right(root, "", pattern, h, match r case Ok(t) => Ok(t.(maxParams := maxParams)) case Panic => Panic, compile)
  {
    if r.Ok? {
      var t, u := r.value, r.value.(maxParams := maxParams);
      forall s, x ensures Serving(t, "", s, x) <==> Serving(u, "", s, x) {
        if t.path <= s { SameBelow(u, t, "", s[|t.path|..], x); }
      }
    }
    hide HasRoute, Serving, Valid, Clash;
  }

  // ---- Sequences of registrations ----

  // Each registration is right at the tree the ones before it have left.
  ghost predicate EachRight(root: Tree, es: seq<Entry>, compile: Compiler)
    requires Shape(root)
    decreases |es|
  {
    es == [] ||
    (Right(root, "", es[0].0, es[0].1, AddPattern(root, es[0].0, es[0].1, compile), compile) &&
     (PatternShape(root, es[0].0, es[0].1, compile);
      var r := AddPattern(root, es[0].0, es[0].1, compile);
      r.Ok? ==> EachRight(r.value, es[1..], compile)))
  }

  // All registrations do what they should exactly if every suffix fits.
  lemma {:induction false} EachRightFits(root: Tree, es: seq<Entry>, compile: Compiler)
    requires Registered(root, compile) && Shape(root) && forall e | e in es :: Rooted(e.0)
    ensures EachRight(root, es, compile) <==> FitsAll(root, es, compile)
    decreases |es|
  {
    if es != [] {
      hide AddPattern, Right, RootFits, Registered, Shape, Adds;
      PatternRight(root, es[0].0, es[0].1, compile);
      PatternShape(root, es[0].0, es[0].1, compile);
      if RootFits(root, es[0].0, compile) {
        AddPatternRegisters(root, es[0].0, es[0].1, compile);
        var r := AddPattern(root, es[0].0, es[0].1, compile);
        if r.Ok? { EachRightFits(r.value, es[1..], compile); }
      }
    }
  }

  // From a method's first registration on.
  lemma FittingRight(es: seq<Entry>, compile: Compiler)
    requires forall e | e in es :: Rooted(e.0)
    ensures EachRight(EMPTY_TREE, es, compile) <==> Fitting(es, compile)
  {
    EmptyIsRegistered(compile);
    EachRightFits(EMPTY_TREE, es, compile);
  }
}
