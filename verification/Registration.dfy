// Registration as a whole: what one accepted pattern does to a method's tree,
// and why the order of registrations does not matter.
module Registration {
  import opened Wrappers
  import opened Patterns
  import opened RouteTree
  import opened RouteSet
  import opened TreeInsert
  import opened TreeLookup
  import opened TreeWalk

  // Patterns the theorems below speak about: rooted, with braces around whole
  // segments only.
  predicate Rooted(p: string) { p != "" && p[0] == '/' && Tidy(p) }

  // maxParams is the largest number of wildcards of a registered pattern, as far
  // as a byte holds it.
  ghost predicate MaxParamsOk(root: Tree) {
    && (forall s, h :: HasRoute(root, s, h) ==> Capped(CountParams(s)) <= root.maxParams)
    && (root.maxParams > 0 ==> exists s, h :: HasRoute(root, s, h) && Capped(CountParams(s)) == root.maxParams)
  }

  function Capped(count: nat): nat { if count > MAX_PARAMS_LIMIT then MAX_PARAMS_LIMIT else count }

  ghost predicate Registered(root: Tree, compile: Compiler) { RootOk(root, compile) && MaxParamsOk(root) }

  // Only valid patterns are ever registered.
  lemma RegisteredValid(root: Tree, s: string, x: Handler, compile: Compiler)
    requires Registered(root, compile) && HasRoute(root, s, x)
    ensures Valid(s, compile)
  {
    if Fresh(root) {
      FreshHasNoRoute(root);
    } else {
      RouteValid(root, "", s, x, compile);
    }
  }

  lemma RootShape(root: Tree, compile: Compiler)
    requires RootOk(root, compile)
    ensures Shape(root) && Walkable(root)
  {
    if !Fresh(root) {
      WellFormedShape(root, "", compile);
      WellFormedWalkable(root, "", compile);
    }
  }

  lemma FreshHasNoRoute(root: Tree)
    requires Fresh(root)
    ensures forall s, h :: !HasRoute(root, s, h)
  {
  }

  // Fields a registration sets at the root do not matter for the routes.
  lemma RelabelRoot(t: Tree, nType: NodeType, maxParams: nat, compile: Compiler)
    requires WellFormed(t, "", compile) && StaticKind(t) && nType in {StaticNode, RootNode}
    ensures var r := t.(nType := nType, maxParams := maxParams); WellFormed(r, "", compile) && SameRoutes(t, r)
  {
    var r := t.(nType := nType, maxParams := maxParams);
    assert Local(r, "", compile);
    forall s, x ensures HasRoute(t, s, x) <==> HasRoute(r, s, x) {
      if t.path <= s {
        assert Below(t, s[|t.path|..], x) <==> Below(r, s[|t.path|..], x);
      }
    }
  }

  // The new pattern's suffix fits where it would take over a child.
  ghost predicate RootFits(root: Tree, pattern: string, compile: Compiler)
    requires Shape(root)
  {
    (root.path == "" && root.indices == "") || !Misfits(Bumped(root), pattern, compile)
  }

  lemma NoSecondFits(root: Tree, pattern: string, compile: Compiler)
    requires Shape(root) && NoSecond(root, pattern)
    ensures RootFits(root, pattern, compile)
  {
    if !RootFits(root, pattern, compile) { MisfitsSecond(Bumped(root), pattern, compile); }
  }

  // No regular expression parameter would get a second suffix by this.
  ghost predicate NoSecond(root: Tree, pattern: string)
    requires Shape(root)
  {
    (root.path == "" && root.indices == "") || !SecondSuffix(Bumped(root), pattern)
  }

  // The tree before AddPattern sets the root's maxParams.
  lemma InsertAtRoot(root: Tree, pattern: string, h: Handler, compile: Compiler) returns (r: Result<Tree>)
    requires RootOk(root, compile) && Shape(root) && Rooted(pattern) && RootFits(root, pattern, compile)
    ensures InsertedOk(root, pattern, h, r, compile)
    ensures AddPattern(root, pattern, h, compile)
         == match r
            case Ok(t) => Ok(t.(maxParams := RaisedMax(root.maxParams, CountParams(pattern))))
            case Panic => Panic
  {
    AddPatternCases(root, pattern, h, compile);
    hide AddPattern, Clash, Adds, Valid, Misfits;
    if Fresh(root) {
      r := InsertFirst(root, pattern, h, compile);
    } else {
      r := InsertNext(root, pattern, h, compile);
    }
  }

  lemma AddPatternCases(root: Tree, pattern: string, h: Handler, compile: Compiler)
    requires Shape(root) && Shape(Bumped(root))
    ensures AddPattern(root, pattern, h, compile)
         == match (if root.path == "" && root.indices == ""
                   then Relabelled(InsertChild(Bumped(root), pattern, pattern, h, compile))
                   else AddWalk(Bumped(root), pattern, pattern, h, compile))
            case Ok(t) => Ok(t.(maxParams := RaisedMax(root.maxParams, CountParams(pattern))))
            case Panic => Panic
  {
    hide InsertChild, AddWalk;
  }

  function Relabelled(r: Result<Tree>): Result<Tree> {
    match r
    case Ok(t) => Ok(t.(nType := RootNode))
    case Panic => Panic
  }

  // The first pattern of a method ...
  lemma InsertFirst(root: Tree, pattern: string, h: Handler, compile: Compiler) returns (r: Result<Tree>)
    requires Fresh(root) && Rooted(pattern)
    ensures r == Relabelled(InsertChild(Bumped(root), pattern, pattern, h, compile))
    ensures InsertedOk(root, pattern, h, r, compile)
  {
    var n := Bumped(root);
    assert Fresh(n) && "" + pattern == pattern;
    FreshInsert(n, "", pattern, pattern, h, compile);
    var t := InsertChild(n, pattern, pattern, h, compile);
    r := Relabelled(t);
    hide *;
    FreshClashes(root, pattern);
    if t.Ok? {
      FirstInserted(root, t.value, pattern, h, compile);
    }
    FirstOk(root, pattern, h, t, compile);
  }

  lemma FreshClashes(root: Tree, pattern: string)
    requires Fresh(root)
    ensures !Clash(root, pattern)
  {
    FreshHasNoRoute(root);
  }

  lemma FirstInserted(root: Tree, t: Tree, pattern: string, h: Handler, compile: Compiler)
    requires Fresh(root) && Rooted(pattern) && FreshOk("", pattern, h, Ok(t), compile)
    ensures InsertedTree(root, t.(nType := RootNode), pattern, h, compile)
  {
    FreshHasNoRoute(root);
    RelabelRoot(t, RootNode, t.maxParams, compile);
    hide WellFormed, HasRoute;
  }

  lemma FirstOk(root: Tree, pattern: string, h: Handler, t: Result<Tree>, compile: Compiler)
    requires pattern != "" && FreshOk("", pattern, h, t, compile) && !Clash(root, pattern)
    requires t.Ok? ==> InsertedTree(root, t.value.(nType := RootNode), pattern, h, compile)
    ensures InsertedOk(root, pattern, h, Relabelled(t), compile)
  {
    hide InsertedTree, WellFormed, Only, Clash;
  }

  // ... and any other.
  lemma InsertNext(root: Tree, pattern: string, h: Handler, compile: Compiler) returns (r: Result<Tree>)
    requires RootOk(root, compile) && !Fresh(root) && Shape(root) && Shape(Bumped(root))
    requires Rooted(pattern) && RootFits(root, pattern, compile)
    ensures !(root.path == "" && root.indices == "")
    ensures r == AddWalk(Bumped(root), pattern, pattern, h, compile) && InsertedOk(root, pattern, h, r, compile)
  {
    var n := Bumped(root);
    NextEnters(root, pattern, compile);
    assert "" + pattern == pattern;
    hide *;
    WalkRegisters(n, "", pattern, pattern, h, compile);
    r := AddWalk(n, pattern, pattern, h, compile);
    NextInserted(root, pattern, h, r, compile);
  }

  // A walk begins at the root, counted.
  lemma NextEnters(root: Tree, pattern: string, compile: Compiler)
    requires RootOk(root, compile) && !Fresh(root) && Shape(root) && Shape(Bumped(root))
    requires Rooted(pattern) && RootFits(root, pattern, compile)
    ensures !(root.path == "" && root.indices == "")
    ensures var n := Bumped(root);
            WellFormed(n, "", compile) && Enters(n, pattern) && Tidy(pattern) && !Misfits(n, pattern, compile)
  {
    assert Local(root, "", compile);
    BumpedSame(root, "", compile);
    hide WellFormed, Local, Misfits;
  }

  lemma NextInserted(root: Tree, pattern: string, h: Handler, r: Result<Tree>, compile: Compiler)
    requires RootOk(root, compile) && !Fresh(root) && Shape(root) && Rooted(pattern)
    requires Registers(Bumped(root), "", pattern, h, r, compile)
    ensures InsertedOk(root, pattern, h, r, compile)
  {
    var n := Bumped(root);
    BumpedSame(root, "", compile);
    if n.path == "" { NoTextClashes(n, "", pattern, pattern, h, compile); }
    assert StaticKind(n) && First(n) == '/';
    hide WellFormed, HasRoute, Valid, Misfits;
  }

  ghost predicate InsertedOk(root: Tree, pattern: string, h: Handler, r: Result<Tree>, compile: Compiler) {
    && (r.Ok? <==> Valid(pattern, compile) && !Clash(root, pattern))
    && (r.Ok? ==> InsertedTree(root, r.value, pattern, h, compile))
  }

  ghost predicate InsertedTree(root: Tree, t: Tree, pattern: string, h: Handler, compile: Compiler) {
    WellFormed(t, "", compile) && StaticKind(t) && First(t) == '/' && !CatchAllParent(t) && Adds(root, t, pattern, h)
  }

  lemma CountsWildcards(p: string)
    ensures CountParams(p) == 0 <==> Plain(p)
  {
  }

  lemma RaisedMaxParams(root: Tree, t: Tree, pattern: string, h: Handler)
    requires Adds(root, t, pattern, h) && MaxParamsOk(root)
    requires t.maxParams == RaisedMax(root.maxParams, CountParams(pattern))
    ensures MaxParamsOk(t)
  {
    assert HasRoute(t, pattern, h);
    if root.maxParams != 0 {
      var s, x :| HasRoute(root, s, x) && Capped(CountParams(s)) == root.maxParams;
      assert HasRoute(t, s, x);
    }
    hide HasRoute, CountParams;
  }

  // It is 0 exactly while every registered pattern is free of wildcards.
  lemma WildRoute(root: Tree) returns (s: string, x: Handler)
    requires MaxParamsOk(root) && root.maxParams > 0
    ensures HasRoute(root, s, x) && !Plain(s)
  {
    s, x :| HasRoute(root, s, x) && Capped(CountParams(s)) == root.maxParams;
    CountsWildcards(s);
  }

  lemma PlainRoutes(root: Tree)
    requires MaxParamsOk(root) && root.maxParams == 0
    ensures forall s, h :: HasRoute(root, s, h) ==> Plain(s)
  {
    forall s, h | HasRoute(root, s, h) ensures Plain(s) { CountsWildcards(s); }
  }

  // A registration succeeds exactly when the pattern is valid and conflicts with
  // no registered pattern, and then adds this one route and nothing else, if
  // its suffix fits where it would take over a child.
  lemma AddPatternRegisters(root: Tree, pattern: string, h: Handler, compile: Compiler)
    requires Registered(root, compile) && Shape(root) && Rooted(pattern) && RootFits(root, pattern, compile)
    ensures var r := AddPattern(root, pattern, h, compile);
            && (r.Ok? <==> Valid(pattern, compile) && !Clash(root, pattern))
            && (r.Ok? ==> Registered(r.value, compile) && Adds(root, r.value, pattern, h))
  {
    RootShape(root, compile);
    var r := InsertAtRoot(root, pattern, h, compile);
    if r.Ok? {
      var t := r.value.(maxParams := RaisedMax(root.maxParams, CountParams(pattern)));
      RelabelRoot(r.value, r.value.nType, t.maxParams, compile);
      assert CatchAllParent(t) == CatchAllParent(r.value);
      RaisedMaxParams(root, t, pattern, h);
    }
  }

  // ---- Second suffixes, in terms of patterns ----

  lemma {:induction false} PlainSecond(u: string, s: string, t: string)
    requires Plain(u) && NoStar(s) && NoStar(t)
    ensures Second(u + s, u + t) == Second(s, t)
    decreases |u|
  {
    if u == "" {
      assert u + s == s && u + t == t;
    } else {
      UnconsPlain(u, s);
      UnconsPlain(u, t);
      PlainSecond(u[1..], s, t);
    }
  }

  lemma TokenSecond(token: string, s: string, t: string)
    requires IsToken(token) && '/' !in token && s != "" && s[0] == '/' && t != "" && t[0] == '/'
    ensures Second(token + s, token + t) <==> token[0] == '{' || Second(s, t)
  {
    UnconsToken(token, s);
    UnconsToken(token, t);
  }

  lemma ContinueSecond(n: Tree, prefix: string, s: string, t: string, compile: Compiler)
    requires WellFormed(n, prefix, compile) && Continues(n, s) && Continues(n, t) && s != "" && t != "" && Second(s, t)
    ensures Second(n.path + s, n.path + t)
  {
    if StaticKind(n) {
      PlainText(n, prefix, compile);
      PlainSecond(n.path, s, t);
    } else {
      WholeToken(n, prefix, compile);
      TokenSecond(n.path, s, t);
    }
  }

  // A walk that would give a token a second suffix passes a registered pattern
  // that has given it the first.
  lemma {:induction false} SecondMeans(n: Tree, prefix: string, path: string, compile: Compiler) returns (s: string, x: Handler)
    requires WellFormed(n, prefix, compile) && Shape(n) && Enters(n, path) && Tidy(path) && SecondSuffix(n, path)
    ensures HasRoute(n, s, x) && Second(s, path)
    decreases Size(n)
  {
    var rest := path[|n.path|..];
    RestBelow(n, prefix, path, compile);
    var j := if Stuck(n, rest) then 0 else Chosen(n, rest);
    ChildWellFormed(n, prefix, j, compile);
    var t;
    if Stuck(n, rest) {
      t, x := SomeRoute(n.children[0], prefix + n.path, compile);
      RouteBegins(n.children[0], prefix + n.path, t, x, compile);
      WholeToken(n, prefix, compile);
      StuckToken(n, prefix, compile);
      TokenSecond(n.path, t, rest);
    } else {
      ChosenGoesOn(n, prefix, rest, compile);
      BumpedSame(n.children[j], prefix + n.path, compile);
      t, x := SecondMeans(Entered(n, j), prefix + n.path, rest, compile);
      RouteBegins(n.children[j], prefix + n.path, t, x, compile);
      RouteContinues(n, prefix, j, t, x, compile);
      ContinueSecond(n, prefix, t, rest, compile);
    }
    s := n.path + t;
    Cut(n.path, t);
    BelowHas(n, j, t, x);
  }

  lemma StuckToken(n: Tree, prefix: string, compile: Compiler)
    requires WellFormed(n, prefix, compile) && n.nType == RegexNode && n.children != []
    ensures n.path[0] == '{' && n.children[0].nType == StaticNode && First(n.children[0]) == '/'
  {
  }

  lemma ChosenGoesOn(n: Tree, prefix: string, rest: string, compile: Compiler)
    requires WellFormed(n, prefix, compile) && Shape(n) && n.nType != WildcardNode && rest != "" && Chosen(n, rest) >= 0
    requires TokenKind(n) ==> rest[0] == '/'
    ensures Continues(n, rest) && Enters(Entered(n, Chosen(n, rest)), rest)
  {
    ChosenContinues(n, prefix, rest, compile);
    ChosenEnters(n, prefix, rest, compile);
  }

  lemma RouteContinues(n: Tree, prefix: string, j: nat, t: string, x: Handler, compile: Compiler)
    requires WellFormed(n, prefix, compile) && n.nType != WildcardNode && j < |n.children| && HasRoute(n.children[j], t, x)
    ensures Continues(n, t) && t != ""
  {
    Cut(n.path, t);
    BelowHas(n, j, t, x);
    var k := RouteTail(n, prefix, n.path + t, x, compile);
    RouteBegins(n.children[j], prefix + n.path, t, x, compile);
  }

  // No registered pattern shares a regular expression parameter with this one
  // and goes on behind it as it does.
  lemma NoSecondAmong(root: Tree, pattern: string, compile: Compiler)
    requires RootOk(root, compile) && Shape(root) && Rooted(pattern)
    requires forall s, x :: HasRoute(root, s, x) ==> !Second(s, pattern)
    ensures NoSecond(root, pattern)
  {
    if !Fresh(root) && !NoSecond(root, pattern) {
      BumpedSame(root, "", compile);
      var s, x := SecondMeans(Bumped(root), "", pattern, compile);
    }
  }

  // ---- maxParams and the wildcard children ----

  // No node below captures anything.
  predicate NoWild(n: Tree)
    decreases n
  {
    StaticKind(n) && !n.wildChild && forall j | 0 <= j < |n.children| :: NoWild(n.children[j])
  }

  lemma {:induction false} PlainRoutesNoWild(n: Tree, prefix: string, compile: Compiler)
    requires WellFormed(n, prefix, compile) && StaticKind(n)
    requires forall s, h :: HasRoute(n, s, h) ==> Plain(s)
    ensures NoWild(n)
    decreases n
  {
    forall j | 0 <= j < |n.children| ensures NoWild(n.children[j]) && j < |n.indices| {
      var c := n.children[j];
      forall s, h | HasRoute(c, s, h) ensures Plain(s) {
        Cut(n.path, s);
        assert Below(n, s, h);
        assert HasRoute(n, n.path + s, h);
        forall k | 0 <= k < |s| ensures !IsMark(s[k]) { assert s[k] == (n.path + s)[|n.path| + k]; }
      }
      var s, h := SomeRoute(c, prefix + n.path, compile);
      ChildRouteOwns(n, prefix, j, s, h, compile);
      assert !IsMark(s[0]) && (|s| >= 2 ==> s[..2][1] == s[1] && !IsMark(s[1]));
      PlainRoutesNoWild(c, prefix + n.path, compile);
    }
    assert n.wildChild ==> |n.children| - 1 < |n.indices|;
  }

  lemma {:induction false} NoWildPlainRoutes(n: Tree, prefix: string, s: string, h: Handler, compile: Compiler)
    requires WellFormed(n, prefix, compile) && NoWild(n) && HasRoute(n, s, h)
    ensures Plain(s)
    decreases n
  {
    if !(s == n.path && n.route == Some(h)) {
      var t := s[|n.path|..];
      var j :| 0 <= j < |n.children| && HasRoute(n.children[j], t, h);
      NoWildPlainRoutes(n.children[j], prefix + n.path, t, h, compile);
      PlainConcat(n.path, t);
      Rejoined(s, |n.path|);
    }
  }

  lemma PlainConcat(s: string, t: string)
    requires Plain(s) && Plain(t)
    ensures Plain(s + t)
  {
  }

  // The test a dispatch makes before it takes the static walker.
  lemma MaxParamsMeansNoWild(root: Tree, compile: Compiler)
    requires Registered(root, compile)
    ensures root.maxParams == 0 <==> NoWild(root)
  {
    if Fresh(root) {
      FreshHasNoRoute(root);
    } else if root.maxParams == 0 {
      PlainRoutes(root);
      PlainRoutesNoWild(root, "", compile);
    } else if NoWild(root) {
      var s, h := WildRoute(root);
      NoWildPlainRoutes(root, "", s, h, compile);
    }
  }
}
