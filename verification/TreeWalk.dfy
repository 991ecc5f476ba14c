// Registering a pattern below a node of a well-formed tree.
module TreeWalk {
  import opened Patterns
  import opened RouteTree
  import opened RouteSet
  import opened TreeInsert
  import opened SuffixFits

  // ---- Suffixes that do not fit ----

  // It comes to a token whose only child is not indexed, and the suffix does
  // not fit that child.
  ghost predicate Misfits(n: Tree, path: string, compile: Compiler)
    requires Shape(n)
    decreases Weight(n), 1
  {
    var i := CommonPrefix(path, n.path);
    i == |n.path| && i < |path| && MisfitsBelow(n, path[i..], compile)
  }

  ghost predicate MisfitsBelow(n: Tree, rest: string, compile: Compiler)
    requires Shape(n) && rest != ""
    decreases Weight(n), 0
  {
    if Stuck(n, rest) then Valid(rest, compile) && !Fits(n.children[0], rest)
    else Chosen(n, rest) >= 0 && Misfits(Entered(n, Chosen(n, rest)), rest, compile)
  }

  lemma {:induction false} MisfitsSecond(n: Tree, path: string, compile: Compiler)
    requires Shape(n) && Misfits(n, path, compile)
    ensures SecondSuffix(n, path)
    decreases Weight(n)
  {
    var rest := path[|n.path|..];
    if !Stuck(n, rest) { MisfitsSecond(Entered(n, Chosen(n, rest)), rest, compile); }
  }

  lemma MisfitsIs(n: Tree, path: string, compile: Compiler)
    requires Shape(n) && CommonPrefix(path, n.path) == |n.path| < |path|
    ensures Misfits(n, path, compile) == MisfitsBelow(n, path[|n.path|..], compile)
  {
  }

  lemma SecondGoesOn(n: Tree, path: string)
    requires Shape(n) && SecondSuffix(n, path)
    ensures CommonPrefix(path, n.path) == |n.path| < |path| && SecondBelow(n, path[|n.path|..])
  {
  }

  // ---- The walk ----

  lemma {:induction false} BelowRegisters(n: Tree, prefix: string, rest: string, full: string, h: Handler, compile: Compiler)
    requires WellFormed(n, prefix, compile) && Shape(n) && n.nType != WildcardNode && n.path != ""
    requires rest != "" && Tidy(rest) && !MisfitsBelow(n, rest, compile) && full == prefix + n.path + rest
    requires TokenKind(n) ==> rest[0] == '/'
    ensures Registers(n, prefix, n.path + rest, h, AddBelow(n, rest, full, h, compile), compile)
    decreases Size(n), 0
  {
    var j := Chosen(n, rest);
    if Stuck(n, rest) {
      StuckRegisters(n, prefix, rest, full, h, compile);
    } else if j < 0 {
      GraftRegisters(n, prefix, rest, full, h, compile);
    } else {
      hide AddWalk, Rejoin, WellFormed;
      ChosenContinues(n, prefix, rest, compile);
      ChosenEnters(n, prefix, rest, compile);
      var c := Entered(n, j);
      ChildWellFormed(n, prefix, j, compile);
      BumpedSame(n.children[j], prefix + n.path, compile);
      WalkRegisters(c, prefix + n.path, rest, full, h, compile);
      var r := AddWalk(c, rest, full, h, compile);
      SameClash(n.children[j], c, prefix + n.path, rest, h, r, compile);
      DescendRegisters(n, prefix, j, Moves(n, rest), rest, h, r, compile);
    }
  }

  // Registering below a well-formed node succeeds exactly when the pattern is
  // valid and conflicts with nothing registered there, and then adds the one
  // route and keeps the node well formed: it does if it does not come to a
  // child its suffix does not fit.
  lemma {:induction false} WalkRegisters(n: Tree, prefix: string, path: string, full: string, h: Handler, compile: Compiler)
    requires WellFormed(n, prefix, compile) && Shape(n) && Enters(n, path)
    requires Tidy(path) && !Misfits(n, path, compile) && full == prefix + path
    ensures Registers(n, prefix, path, h, AddWalk(n, path, full, h, compile), compile)
    decreases Size(n), 1
  {
    hide GoodToken, Uncons, IsToken, Tidy, Local, Clash, Adds;
    var i := CommonPrefix(path, n.path);
    if n.path == "" {
      NoTextStatic(n, prefix, path, compile);
      NoTextClashes(n, prefix, path, full, h, compile);
    } else if i < |n.path| {
      assert StaticKind(n) by { TokenWhole(n, prefix, path, compile); }
      SplitRegisters(n, prefix, path, full, h, compile);
    } else if i == |path| {
      assert path == n.path;
      hide Registers;
      SetRouteRegisters(n, prefix, h, compile);
    } else {
      hide AddBelow, Registers;
      var rest := path[i..];
      MisfitsIs(n, path, compile);
      RestBelow(n, prefix, path, compile);
      Concat(prefix, n.path, rest);
      BelowRegisters(n, prefix, rest, full, h, compile);
      WalkIsBelow(n, path, full, h, compile);
    }
  }
}
