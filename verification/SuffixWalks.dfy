// Exactly when a registration leaves a tree the walkers can follow: a second
// suffix behind a regular expression parameter may leave a node whose wildcard
// child is none, at which a walker panics.
module SuffixWalks {
  import opened Wrappers
  import opened Patterns
  import opened RouteTree
  import opened RouteSet
  import opened TreeInsert
  import opened TreeLookup
  import opened SuffixFits
  import opened TreeWalk
  import opened Registration
  import opened RegexSuffix

  // ---- The child that is taken over ----

  // A catch-all takes over a child that has a wildcard child of its own: the
  // children go, but not the mark that the last of them is a wildcard child.
  predicate Detaches(c: Tree, rest: string) {
    var w := FindWild(rest);
    w.start >= 0 && rest[w.start] == '*' && c.wildChild
  }

  lemma PlainWalks(c: Tree, prefix: string, rest: string, full: string, h: Handler, compile: Compiler)
    requires WellFormed(c, prefix, compile)
    ensures Walkable(SetRoute(Bumped(c).(path := rest), full, h))
  {
    WellFormedWalkable(c, prefix, compile);
  }

  lemma ParamWalks(c: Tree, prefix: string, u: string, k: Tree, compile: Compiler)
    requires WellFormed(c, prefix, compile) && StaticKind(c) && WellFormed(k, prefix + u, compile) && TokenKind(k)
    ensures Walkable(Bumped(c).(path := u, children := c.children + [k], wildChild := true))
  {
    var t := Bumped(c).(path := u, children := c.children + [k], wildChild := true);
    WellFormedWalkable(c, prefix, compile);
    WellFormedWalkable(k, prefix + u, compile);
    WildIsLocal(k, prefix + u, compile);
    hide WildLocal, WellFormed;
    forall j | 0 <= j < |t.children| ensures Walkable(t.children[j]) {
      assert j < |c.children| ==> t.children[j] == c.children[j];
    }
  }

  lemma WildIsLocal(k: Tree, prefix: string, compile: Compiler)
    requires WellFormed(k, prefix, compile) && TokenKind(k)
    ensures WildLocal(k)
  {
    assert Local(k, prefix, compile);
    TokenBounds(k.path, compile);
  }

  lemma TokenBounds(token: string, compile: Compiler)
    requires ParamToken(token, compile)
    ensures |token| >= 1 && (token[0] == '{' ==> 1 <= NameEnd(token) <= |token| && compile(TokenExpr(token)).Some?)
  {
  }

  lemma StarWalks(c: Tree, prefix: string, a: string, b: string, full: string, h: Handler, compile: Compiler)
    requires WellFormed(c, prefix, compile) && |b| >= 2
    ensures Walkable(Bumped(c).(path := a, children := [CatchAllNode(CatchAllLeaf(b, full, h))], indices := "/")) <==> !c.wildChild
  {
    var leaf := CatchAllLeaf(b, full, h);
    assert Walkable(leaf) && WildLocal(leaf);
    assert CatchAllNode(leaf).children[0] == leaf && Last(CatchAllNode(leaf).children) == leaf;
    assert Walkable(CatchAllNode(leaf));
    assert Local(c, prefix, compile);
  }

  lemma TakenWalks(c: Tree, prefix: string, rest: string, h: Handler, compile: Compiler)
    requires WellFormed(c, prefix, compile) && StaticKind(c) && rest != "" && rest[0] == '/' && Tidy(rest)
    ensures var r := InsertChild(Bumped(c), rest, prefix + rest, h, compile);
            r.Ok? ==> (Walkable(r.value) <==> !Detaches(c, rest))
  {
    var w := FindWild(rest);
    if w.start < 0 {
      PlainWalks(c, prefix, rest, prefix + rest, h, compile);
    } else {
      var u, v := rest[..w.start], rest[w.start..];
      Rejoined(rest, w.start);
      PlainTidy(u, v);
      hide WellFormed, Walkable, InsertChild, FindWild, Tidy;
      if v[0] == '*' {
        StarTakenWalks(c, prefix, u, v, h, compile);
      } else if IsToken(v[..SegmentEnd(v)]) {
        ParamTakenWalks(c, prefix, u, v, h, compile);
      } else {
        BrokenToken(Bumped(c), u, v, prefix + rest, h, compile);
      }
    }
  }

  lemma ParamTakenWalks(c: Tree, prefix: string, u: string, v: string, h: Handler, compile: Compiler)
    requires WellFormed(c, prefix, compile) && StaticKind(c) && Plain(u) && u != "" && FindWild(u + v).start == |u|
    requires v != "" && IsToken(v[..SegmentEnd(v)]) && Tidy(v)
    ensures var r := InsertChild(Bumped(c), u + v, prefix + (u + v), h, compile);
            r.Ok? ==> Walkable(r.value)
  {
    var r := InsertChild(Bumped(c), u + v, prefix + (u + v), h, compile);
    ParamTaken(c, prefix, u, v, h, compile);
    hide WellFormed, InsertChild, Walkable;
    if r.Ok? { ParamWalks(c, prefix, u, Last(r.value.children), compile); }
  }

  lemma StarTakenWalks(c: Tree, prefix: string, u: string, v: string, h: Handler, compile: Compiler)
    requires WellFormed(c, prefix, compile) && StaticKind(c) && Plain(u) && u != "" && v != "" && v[0] == '*'
    ensures var r := InsertChild(Bumped(c), u + v, prefix + (u + v), h, compile);
            r.Ok? ==> (Walkable(r.value) <==> !c.wildChild)
  {
    StarTaken(c, prefix, u, v, h, compile);
    hide WellFormed, InsertChild, Walkable;
    StarWalks(c, prefix, u[..|u| - 1], "/" + v, prefix + (u + v), h, compile);
  }

  // ---- The way back up ----

  lemma ReplacedWalks(n: Tree, j: nat, c: Tree)
    requires Walkable(n) && j < |n.children| && (n.wildChild && j == |n.children| - 1 ==> WildLocal(c))
    ensures Walkable(n.(children := n.children[j := c])) <==> Walkable(c)
  {
    hide WildLocal;
    var t := n.(children := n.children[j := c]);
    assert t.children[j] == c;
    if Walkable(c) {
      forall k | 0 <= k < |t.children| ensures Walkable(t.children[k]) {
        assert k != j ==> t.children[k] == n.children[k];
      }
    }
  }

  lemma ReorderedWalks(n: Tree, j: nat, np: nat)
    requires np <= j < |n.indices| <= |n.children| && (n.wildChild ==> |n.indices| < |n.children|)
    ensures Walkable(Reordered(n, j, np)) <==> Walkable(n)
  {
    hide Walkable, WildLocal, AllWalk;
    var t := Reordered(n, j, np);
    assert n.wildChild ==> Last(t.children) == n.children[MovedFrom(j, np, |n.children| - 1)];
    MovedWalks(n.children, j, np);
    SameWalks(n, t);
  }

  // Whether a node can be walked depends on its children as a whole.
  lemma SameWalks(n: Tree, t: Tree)
    requires |t.indices| == |n.indices| && |t.children| == |n.children| && AllWalk(t.children) == AllWalk(n.children)
    requires t.wildChild == n.wildChild && t.route == n.route && t.pattern == n.pattern
    requires n.wildChild && n.children != [] ==> Last(t.children) == Last(n.children)
    ensures Walkable(t) == Walkable(n)
  {
    hide WildLocal;
  }

  predicate AllWalk(ts: seq<Tree>) { forall i | 0 <= i < |ts| :: Walkable(ts[i]) }

  lemma MovedWalks(ts: seq<Tree>, j: nat, np: nat)
    requires np <= j < |ts|
    ensures AllWalk(MoveUp(ts, j, np)) <==> AllWalk(ts)
  {
    hide Walkable;
    var us := MoveUp(ts, j, np);
    forall i | 0 <= i < |ts| ensures us[MovedTo(j, np, i)] == ts[i] { }
    if AllWalk(us) {
      forall i | 0 <= i < |ts| ensures Walkable(ts[i]) { assert us[MovedTo(j, np, i)] == ts[i]; }
    }
  }

  lemma RejoinWalks(n: Tree, j: nat, moves: bool, c: Tree)
    requires Walkable(n) && j < |n.children| && (moves ==> j < |n.indices|)
    requires n.wildChild && j == |n.children| - 1 ==> WildLocal(c)
    ensures |n.indices| <= |n.children|
    ensures Rejoin(n, j, moves, Ok(c)).Ok? && (Walkable(Rejoin(n, j, moves, Ok(c)).value) <==> Walkable(c))
  {
    ReplacedWalks(n, j, c);
    if moves {
      RejoinIsReordered(n, j, c);
      ReorderedWalks(n.(children := n.children[j := c]), j, NewPos(n, j));
    }
  }

  lemma StuckWalks(n: Tree, t: Tree, b: char)
    requires Walkable(n) && !n.wildChild
    ensures Walkable(n.(indices := [b], children := [t, EMPTY_TREE])) <==> Walkable(t)
  {
    var m := n.(indices := [b], children := [t, EMPTY_TREE]);
    assert m.children[0] == t && m.children[1] == EMPTY_TREE && Walkable(EMPTY_TREE);
  }

  // ---- Exactly when the tree can be followed ----

  // The walk comes to a token whose only child is not indexed, and detaches
  // that child's wildcard child.
  predicate Strands(n: Tree, path: string)
    requires Shape(n)
    decreases Weight(n), 1
  {
    var i := CommonPrefix(path, n.path);
    i == |n.path| && i < |path| && StrandsBelow(n, path[i..])
  }

  predicate StrandsBelow(n: Tree, rest: string)
    requires Shape(n) && rest != ""
    decreases Weight(n), 0
  {
    if Stuck(n, rest) then Detaches(n.children[0], rest)
    else Chosen(n, rest) >= 0 && Strands(Entered(n, Chosen(n, rest)), rest)
  }

  lemma {:induction false} StrandsSecond(n: Tree, path: string)
    requires Shape(n) && Strands(n, path)
    ensures SecondSuffix(n, path)
    decreases Weight(n)
  {
    var rest := path[|n.path|..];
    if !Stuck(n, rest) { StrandsSecond(Entered(n, Chosen(n, rest)), rest); }
  }

  // A second suffix leaves the nodes on the way what they are.
  ghost predicate SameNode(n: Tree, t: Tree) {
    && t.path == n.path && t.nType == n.nType && t.regexp == n.regexp && t.nameEnd == n.nameEnd
    && t.wildChild == n.wildChild && t.route == n.route && t.pattern == n.pattern
  }

  // At the token itself.
  lemma StuckStrands(n: Tree, prefix: string, rest: string, h: Handler, compile: Compiler)
    requires WellFormed(n, prefix, compile) && Shape(n) && Stuck(n, rest) && rest[0] == '/' && Tidy(rest)
    ensures var r := AddBelow(n, rest, prefix + n.path + rest, h, compile);
            r.Ok? ==> SameNode(n, r.value) && (Walkable(r.value) <==> !Detaches(n.children[0], rest))
  {
    var c, q := n.children[0], prefix + n.path;
    StuckChild(n, prefix, compile);
    ChildWellFormed(n, prefix, 0, compile);
    WellFormedWalkable(n, prefix, compile);
    StuckIs(n, rest, q + rest, h, compile);
    TakenWalks(c, q, rest, h, compile);
    var r := InsertChild(Bumped(c), rest, q + rest, h, compile);
    hide InsertChild, AddBelow, WellFormed, Walkable, Detaches, Tidy;
    if r.Ok? { StuckWalks(n, r.value, rest[0]); }
  }

  // A registration that does not panic leaves a tree the walkers can follow
  // exactly if it strands no wildcard child.
  lemma {:induction false} WalkStrands(n: Tree, prefix: string, path: string, h: Handler, compile: Compiler)
    requires WellFormed(n, prefix, compile) && Shape(n) && Enters(n, path) && Tidy(path)
    ensures var r := AddWalk(n, path, prefix + path, h, compile);
            r.Ok? ==> (Walkable(r.value) <==> !Strands(n, path)) && (SecondSuffix(n, path) ==> SameNode(n, r.value))
    decreases Size(n)
  {
    hide WellFormed, AddWalk, Walkable, Strands, SecondSuffix, SameNode, Misfits;
    if !SecondSuffix(n, path) {
      if Misfits(n, path, compile) { MisfitsSecond(n, path, compile); }
      WalkRegisters(n, prefix, path, prefix + path, h, compile);
      if AddWalk(n, path, prefix + path, h, compile).Ok? {
        WellFormedWalkable(AddWalk(n, path, prefix + path, h, compile).value, prefix, compile);
      }
      if Strands(n, path) { StrandsSecond(n, path); }
    } else if n.path == "" {
      NoTextStatic(n, prefix, path, compile);
      NoTextClashes(n, prefix, path, prefix + path, h, compile);
    } else {
      SecondGoesOn(n, path);
      RestBelow(n, prefix, path, compile);
      WalkIsBelow(n, path, prefix + path, h, compile);
      Concat(prefix, n.path, path[|n.path|..]);
      StrandsIs(n, path);
      BelowStrands(n, prefix, path[|n.path|..], h, compile);
    }
  }

  lemma StrandsIs(n: Tree, path: string)
    requires Shape(n) && CommonPrefix(path, n.path) == |n.path| < |path|
    ensures Strands(n, path) == StrandsBelow(n, path[|n.path|..])
  {
  }

  lemma {:induction false} BelowStrands(n: Tree, prefix: string, rest: string, h: Handler, compile: Compiler)
    requires WellFormed(n, prefix, compile) && Shape(n) && n.path != "" && rest != "" && Tidy(rest) && SecondBelow(n, rest)
    requires (StaticKind(n) || TokenKind(n)) && (TokenKind(n) ==> rest[0] == '/')
    ensures var r := AddBelow(n, rest, prefix + n.path + rest, h, compile);
            r.Ok? ==> (Walkable(r.value) <==> !StrandsBelow(n, rest)) && SameNode(n, r.value)
    decreases Size(n), 0
  {
    hide WellFormed, AddWalk, Walkable, Strands, SecondSuffix, Rejoin, InsertChild, WildLocal;
    if Stuck(n, rest) {
      StuckStrands(n, prefix, rest, h, compile);
    } else {
      var j, moves := Chosen(n, rest), Moves(n, rest);
      var c := Entered(n, j);
      ChosenContinues(n, prefix, rest, compile);
      ChosenEnters(n, prefix, rest, compile);
      ChildWellFormed(n, prefix, j, compile);
      BumpedSame(n.children[j], prefix + n.path, compile);
      WalkStrands(c, prefix + n.path, rest, h, compile);
      BelowIs(n, rest, prefix + n.path + rest, h, compile);
      var r := AddWalk(c, rest, prefix + n.path + rest, h, compile);
      if r.Ok? {
        WellFormedWalkable(n, prefix, compile);
        LastStays(n, j, r.value);
        RejoinWalks(n, j, moves, r.value);
        RejoinSame(n, j, moves, r.value);
      } else {
        RejoinPanics(n, j, moves);
      }
    }
  }

  lemma LastStays(n: Tree, j: nat, c: Tree)
    requires Walkable(n) && j < |n.children| && SameNode(Bumped(n.children[j]), c)
    ensures n.wildChild && j == |n.children| - 1 ==> WildLocal(c)
  {
  }

  lemma RejoinSame(n: Tree, j: nat, moves: bool, c: Tree)
    requires j < |n.children| && |n.indices| <= |n.children| && (moves ==> j < |n.indices|)
    ensures Rejoin(n, j, moves, Ok(c)).Ok? && SameNode(n, Rejoin(n, j, moves, Ok(c)).value)
  {
  }

  // The same for a method's whole tree.
  predicate RootStrands(root: Tree, pattern: string)
    requires Shape(root)
  {
    !(root.path == "" && root.indices == "") && Strands(Bumped(root), pattern)
  }

  lemma LabelWalks(t: Tree, nType: NodeType, maxParams: nat)
    ensures Walkable(t.(nType := nType, maxParams := maxParams)) <==> Walkable(t)
  {
    var u := t.(nType := nType, maxParams := maxParams);
    assert u.children == t.children;
  }

  lemma PatternStrands(root: Tree, pattern: string, h: Handler, compile: Compiler)
    requires Registered(root, compile) && Shape(root) && Rooted(pattern)
    ensures var r := AddPattern(root, pattern, h, compile);
            r.Ok? ==> (Walkable(r.value) <==> !RootStrands(root, pattern))
  {
    if NoSecond(root, pattern) {
      NoSecondFits(root, pattern, compile);
      AddPatternRegisters(root, pattern, h, compile);
      var r := AddPattern(root, pattern, h, compile);
      if r.Ok? { RegisteredWalks(r.value, compile); }
      if RootStrands(root, pattern) { StrandsSecond(Bumped(root), pattern); }
    } else {
      AddPatternCases(root, pattern, h, compile);
      RootIs(root, compile);
      hide AddPattern, AddWalk, Registered, WellFormed, Walkable, Strands, Shape, MaxParamsOk, RootOk, SecondSuffix;
      var n := Bumped(root);
      BumpedSame(root, "", compile);
      assert "" + pattern == pattern;
      RootEnters(n, pattern, compile);
      WalkStrands(n, "", pattern, h, compile);
      var r := AddWalk(n, pattern, pattern, h, compile);
      if r.Ok? { LabelWalks(r.value, r.value.nType, RaisedMax(root.maxParams, CountParams(pattern))); }
    }
  }

  lemma RegisteredWalks(root: Tree, compile: Compiler)
    requires Registered(root, compile)
    ensures Walkable(root)
  {
    if !Fresh(root) { WellFormedWalkable(root, "", compile); }
  }

  // A second suffix comes with a pattern that has a parameter.
  lemma SecondCounts(root: Tree, pattern: string, compile: Compiler)
    requires Registered(root, compile) && Shape(root) && Rooted(pattern) && !NoSecond(root, pattern)
    ensures CountParams(pattern) > 0
  {
    RootIs(root, compile);
    BumpedSame(root, "", compile);
    RootEnters(Bumped(root), pattern, compile);
    hide WellFormed, Registered, SecondSuffix;
    var s, x := SecondMeans(Bumped(root), "", pattern, compile);
    CountsWildcards(pattern);
    if Plain(pattern) { PlainNotSecond(s, pattern); }
  }
}
