// A second suffix behind a regular expression parameter. The child for the
// first one is stored without an index, and the next registration takes that
// child over, whatever text it has. This module says when that does no harm.
module SuffixFits {
  import opened Wrappers
  import opened Patterns
  import opened RouteTree
  import opened RouteSet
  import opened TreeInsert

  // ---- The child of a token ----

  lemma StuckChild(n: Tree, prefix: string, compile: Compiler)
    requires WellFormed(n, prefix, compile) && n.nType == RegexNode && n.indices == "" && n.children != []
    ensures |n.children| == 1 && !n.wildChild && n.children[0].nType == StaticNode && First(n.children[0]) == '/'
  {
  }

  // What a stuck registration comes to.
  lemma StuckIs(n: Tree, rest: string, full: string, h: Handler, compile: Compiler)
    requires Shape(n) && Stuck(n, rest) && |n.children| == 1 && !n.wildChild
    ensures AddBelow(n, rest, full, h, compile)
         == match InsertChild(Bumped(n.children[0]), rest, full, h, compile)
            case Ok(t) => Ok(n.(indices := [rest[0]], children := [t, EMPTY_TREE]))
            case Panic => Panic
  {
    IndexTaken(n, rest[0]);
    hide InsertChild, AppendStatic, IncrementPrio, NewPos, Shape;
    var k := n.(indices := [rest[0]], children := [Bumped(n.children[0]), EMPTY_TREE]);
    var r := InsertChild(k.children[0], rest, full, h, compile);
    assert Chosen(n, rest) < 0;
    assert AddStatic(n, rest, full, h, compile) == WithChild(k, 0, r);
    if r.Ok? { assert [Bumped(n.children[0]), EMPTY_TREE][0 := r.value] == [r.value, EMPTY_TREE]; }
  }

  // The new index is that of the child that has been there all along.
  lemma IndexTaken(n: Tree, c: char)
    requires n.indices == "" && |n.children| == 1 && !n.wildChild
    ensures var m := AppendStatic(n, c);
            && |m.indices| == 1 && |m.children| == 2 && NewPos(m, 0) == 0
            && IncrementPrio(m, 0) == n.(indices := [c], children := [Bumped(n.children[0]), EMPTY_TREE])
  {
    var m := AppendStatic(n, c);
    assert m.children == [n.children[0], EMPTY_TREE] && m.indices == [c];
    assert NewPos(m, 0) == 0;
    assert m.children[0 := Bumped(m.children[0])] == [Bumped(n.children[0]), EMPTY_TREE];
    hide MoveUp, NewPos, Bumped;
    MovedNowhere([Bumped(n.children[0]), EMPTY_TREE], 0);
    MovedNowhere([c], 0);
  }

  lemma MovedNowhere<T>(s: seq<T>, pos: nat)
    requires pos < |s|
    ensures MoveUp(s, pos, pos) == s
  {
  }

  // ---- What the child becomes ----

  // The text it gets.
  function NewText(rest: string): string {
    var w := FindWild(rest);
    if w.start < 0 then rest
    else if rest[w.start] == '*' then rest[..if w.start > 0 then w.start - 1 else 0]
    else rest[..w.start]
  }

  // What follows the text is the first token, unless there is none.
  lemma TextCut(rest: string)
    ensures FindWild(rest).start < 0 ==> NewText(rest) == rest
    ensures var w := FindWild(rest);
            w.start >= 0 && rest[w.start] != '*' ==>
              rest == NewText(rest) + rest[w.start..] && IsMark(rest[w.start]) && |NewText(rest)| == w.start
    ensures rest != "" && rest[0] == '/' && FindWild(rest).start >= 0 && rest[FindWild(rest).start] != '*' ==> NewText(rest) != ""
  {
    hide FindWild;
    var w := FindWild(rest);
    if w.start >= 0 { Rejoined(rest, w.start); }
  }

  // A parameter becomes one more child, the wildcard child.
  lemma ParamTaken(c: Tree, prefix: string, u: string, v: string, h: Handler, compile: Compiler)
    requires Plain(u) && u != "" && v != "" && IsToken(v[..SegmentEnd(v)]) && Tidy(v)
    ensures var r := InsertChild(Bumped(c), u + v, prefix + (u + v), h, compile);
            && (r.Ok? <==> Valid(v, compile))
            && (r.Ok? ==>
                  r.value.children != [] &&
                  var k := Last(r.value.children);
                  && r.value == Bumped(c).(path := u, children := c.children + [k], wildChild := true)
                  && TokenKind(k) && WellFormed(k, prefix + u, compile) && Only(k, v, h))
  {
    var token, rest := v[..SegmentEnd(v)], v[SegmentEnd(v)..];
    TokenTail(v);
    FirstToken(u, v);
    InsertChildParam(Bumped(c), u + v, |u|, token, prefix + (u + v), h, compile);
    TextIs(Bumped(c), u, v);
    if ParamToken(token, compile) {
      Concat(prefix, u, v);
      Concat(prefix + u, token, rest);
      InsertParamOnly(Bumped(c).(path := u), token, prefix + u, rest, prefix + (u + v), h, compile);
      NodeText(token, compile);
      hide InsertParam, InsertChild, WellFormed, GoodToken, FindWild, Only, Valid;
    } else {
      BadToken(token, rest, compile);
    }
  }

  // A catch-all takes the place of all children.
  lemma StarTaken(c: Tree, prefix: string, u: string, v: string, h: Handler, compile: Compiler)
    requires Plain(u) && u != "" && v != "" && v[0] == '*'
    ensures var r := InsertChild(Bumped(c), u + v, prefix + (u + v), h, compile);
            r.Ok? ==>
              && Last(u) == '/'
              && r.value == Bumped(c).(path := u[..|u| - 1], children := [CatchAllNode(CatchAllLeaf("/" + v, prefix + (u + v), h))], indices := "/")
  {
    FindWildAt(u, v);
    InsertChildStar(Bumped(c), u + v, |u|, v[..SegmentEnd(v)], prefix + (u + v), h, compile);
    hide InsertChild, FindWild;
    Cut(u, v);
    if Last(u) == '/' { StarResult(Bumped(c), u, v, prefix + (u + v), h); }
  }

  lemma StarResult(n: Tree, u: string, v: string, full: string, h: Handler)
    requires u != "" && Last(u) == '/' && v != ""
    ensures var r := InsertCatchAll(n, u + v, |u|, |v[..SegmentEnd(v)]|, full, h);
            r.Ok? ==> r.value == n.(path := u[..|u| - 1], children := [CatchAllNode(CatchAllLeaf("/" + v, full, h))], indices := "/")
  {
    SlashMoves(u, v);
    assert (u + v)[..|u| - 1] == u[..|u| - 1] && (u + v)[|u| - 1..] == "/" + v;
  }

  // ---- When the suffix fits the child ----

  // The child has the text the suffix has up to its next token, and nothing of
  // what the registration puts there. After a slash a catch-all is refused in
  // any case.
  ghost predicate Fits(c: Tree, rest: string) {
    var w := FindWild(rest);
    if w.start < 0 then c.path == rest && c.route.None?
    else if rest[w.start] != '*' then c.path == NewText(rest) && !c.wildChild
    else if c.path != "" && Last(c.path) == '/' then Clash(c, rest)
    else c.path == NewText(rest) && c.children == []
  }

  // A catch-all is refused if the child's text ends in a slash.
  predicate Refused(c: Tree, rest: string) {
    var w := FindWild(rest);
    w.start >= 0 && rest[w.start] == '*' && c.path != "" && Last(c.path) == '/'
  }

  lemma TakenOk(c: Tree, prefix: string, rest: string, h: Handler, compile: Compiler)
    requires rest != "" && rest[0] == '/' && Tidy(rest)
    ensures InsertChild(Bumped(c), rest, prefix + rest, h, compile).Ok? <==> Valid(rest, compile) && !Refused(c, rest)
  {
    var w := FindWild(rest);
    if w.start < 0 {
      assert rest + "" == rest;
      PlainValid(rest, "", compile);
    } else {
      var u, v := rest[..w.start], rest[w.start..];
      Rejoined(rest, w.start);
      PlainTidy(u, v);
      hide InsertChild, FindWild, Tidy, Valid;
      if v[0] == '*' {
        StarOk(c, prefix, u, v, h, compile);
      } else if IsToken(v[..SegmentEnd(v)]) {
        ParamTaken(c, prefix, u, v, h, compile);
        PlainValid(u, v, compile);
      } else {
        BrokenToken(Bumped(c), u, v, prefix + rest, h, compile);
      }
    }
  }

  lemma StarOk(c: Tree, prefix: string, u: string, v: string, h: Handler, compile: Compiler)
    requires Plain(u) && u != "" && v != "" && v[0] == '*'
    ensures InsertChild(Bumped(c), u + v, prefix + (u + v), h, compile).Ok? <==>
              Valid(u + v, compile) && !(c.path != "" && Last(c.path) == '/')
  {
    FindWildAt(u, v);
    InsertChildStar(Bumped(c), u + v, |u|, v[..SegmentEnd(v)], prefix + (u + v), h, compile);
    CatchAllToken(v);
    hide InsertChild;
    assert (u + v)[|u| - 1] == Last(u);
    if Last(u) != '/' {
      StarInvalid(u, v, compile);
    } else {
      StarValid(u, v, compile);
    }
  }

  lemma StarValid(u: string, v: string, compile: Compiler)
    requires u != "" && Plain(u) && Last(u) == '/' && v != "" && v[0] == '*'
    ensures Valid(u + v, compile) <==> CleanName(v[1..])
  {
    SlashMoves(u, v);
    PlainValid(u[..|u| - 1], "/" + v, compile);
    assert Uncons("/" + v) == CatchAll("/" + v);
  }

  // ---- No conflict ----

  // The routes below the wildcard child are those that go on with a token.
  ghost predicate Apart(c: Tree) {
    if c.wildChild then
      c.children != [] && forall s, x :: HasRoute(Last(c.children), s, x) <==> s != "" && IsMark(s[0]) && Below(c, s, x)
    else forall s, x :: s != "" && IsMark(s[0]) ==> !Below(c, s, x)
  }

  lemma WildcardApart(c: Tree, prefix: string, compile: Compiler)
    requires WellFormed(c, prefix, compile) && StaticKind(c) && c.path != ""
    ensures Apart(c)
  {
    assert c.wildChild ==> c.children != [];
    forall s, x | s != "" && IsMark(s[0]) && Below(c, s, x) ensures c.wildChild && HasRoute(Last(c.children), s, x) {
      MarkedBelow(c, prefix, s, x, compile);
    }
    if c.wildChild {
      forall s, x | HasRoute(Last(c.children), s, x) ensures s != "" && IsMark(s[0]) && Below(c, s, x) {
        WildcardBelow(c, prefix, s, x, compile);
      }
    }
  }

  lemma MarkedBelow(c: Tree, prefix: string, s: string, x: Handler, compile: Compiler)
    requires WellFormed(c, prefix, compile) && StaticKind(c) && c.path != "" && s != "" && IsMark(s[0]) && Below(c, s, x)
    ensures c.wildChild && HasRoute(Last(c.children), s, x)
  {
    var j := RouteChild(c, prefix, s, x, compile);
    assert Local(c, prefix, compile);
    hide *;
    MarkOwner(c, prefix, j, s, compile);
  }

  lemma MarkOwner(c: Tree, prefix: string, j: nat, s: string, compile: Compiler)
    requires Local(c, prefix, compile) && StaticKind(c) && c.path != "" && j < |c.children|
    requires OwnsByte(c, j, s) && IsMark(s[0])
    ensures c.wildChild && j == |c.children| - 1
  {
    hide GoodToken, Uncons;
  }

  lemma WildcardBelow(c: Tree, prefix: string, s: string, x: Handler, compile: Compiler)
    requires WellFormed(c, prefix, compile) && StaticKind(c) && c.path != "" && c.wildChild
    requires HasRoute(Last(c.children), s, x)
    ensures s != "" && IsMark(s[0]) && Below(c, s, x)
  {
    ChildOwns(c, prefix, |c.children| - 1, s, x, compile);
    assert Local(c, prefix, compile);
    hide GoodToken, HasRoute, WellFormed;
  }

  lemma ChildOwns(n: Tree, prefix: string, j: nat, s: string, x: Handler, compile: Compiler)
    requires WellFormed(n, prefix, compile) && j < |n.children| && HasRoute(n.children[j], s, x)
    ensures OwnsByte(n, j, s)
  {
    RouteBegins(n.children[j], prefix + n.path, s, x, compile);
    BeginsOwns(n, prefix, j, s, compile);
  }

  lemma FitsNoClash(c: Tree, prefix: string, rest: string, compile: Compiler)
    requires WellFormed(c, prefix, compile) && StaticKind(c) && rest != "" && rest[0] == '/'
    requires Fits(c, rest) && !Refused(c, rest)
    ensures !Clash(c, rest)
  {
    forall s, x | HasRoute(c, s, x) ensures !Conflict(s, rest) { FitsApart(c, prefix, rest, s, x, compile); }
  }

  lemma FitsApart(c: Tree, prefix: string, rest: string, s: string, x: Handler, compile: Compiler)
    requires WellFormed(c, prefix, compile) && StaticKind(c) && rest != "" && rest[0] == '/'
    requires Fits(c, rest) && !Refused(c, rest) && HasRoute(c, s, x)
    ensures !Conflict(s, rest)
  {
    var t := RouteTail(c, prefix, s, x, compile);
    var v := rest[|c.path|..];
    FitsText(c, rest);
    PlainText(c, prefix, compile);
    if c.path != "" { WildcardApart(c, prefix, compile); }
    hide WellFormed, HasRoute, Conflict, FindWild, NewText, Fits;
    PlainConflict(c.path, t, v);
    if Conflict(t, v) { TailsMeet(t, v); }
  }

  // What is left of the suffix behind the child's text.
  lemma FitsText(c: Tree, rest: string)
    requires Fits(c, rest) && !Refused(c, rest) && rest != "" && rest[0] == '/'
    ensures c.path <= rest && rest == c.path + rest[|c.path|..] && NoStar(rest[|c.path|..])
    ensures var v := rest[|c.path|..];
            if v == "" then c.route.None?
            else if IsMark(v[0]) then !c.wildChild && c.path != ""
            else c.children == []
  {
    hide FindWild;
    var w := FindWild(rest);
    if w.start >= 0 {
      assert w.start > 0 && rest[..w.start][w.start - 1] == rest[w.start - 1];
      Rejoined(rest, w.start);
      Rejoined(rest, w.start - 1);
    }
  }

  // Tails that conflict begin alike.
  lemma TailsMeet(t: string, v: string)
    requires Conflict(t, v) && NoStar(t) && NoStar(v)
    ensures t == "" <==> v == ""
    ensures v != "" && IsMark(v[0]) ==> IsMark(t[0])
  {
  }

  // ---- A suffix that fits ----

  lemma FitsRegisters(c: Tree, prefix: string, rest: string, h: Handler, compile: Compiler)
    requires WellFormed(c, prefix, compile) && StaticKind(c) && rest != "" && rest[0] == '/' && Tidy(rest)
    requires Valid(rest, compile) ==> Fits(c, rest)
    ensures Registers(c, prefix, rest, h, InsertChild(Bumped(c), rest, prefix + rest, h, compile), compile)
  {
    TakenOk(c, prefix, rest, h, compile);
    if Valid(rest, compile) && !Refused(c, rest) {
      FitsNoClash(c, prefix, rest, compile);
      BumpedSame(c, prefix, compile);
      hide *;
      AcceptedFits(c, prefix, rest, h, compile);
    } else if Valid(rest, compile) {
      RefusedFits(c, rest);
    }
    hide WellFormed, InsertChild, Valid, Tidy, Clash, Adds, Fits, Refused;
  }

  lemma RefusedFits(c: Tree, rest: string)
    requires Refused(c, rest)
    ensures Fits(c, rest) <==> Clash(c, rest)
  {
  }

  // What fits begins with the child's text, and goes on by its kind.
  lemma AcceptedFits(c: Tree, prefix: string, rest: string, h: Handler, compile: Compiler)
    requires WellFormed(c, prefix, compile) && WellFormed(Bumped(c), prefix, compile) && SameRoutes(c, Bumped(c))
    requires StaticKind(c) && rest != "" && rest[0] == '/' && Tidy(rest) && Valid(rest, compile)
    requires Fits(c, rest) && !Refused(c, rest) && !Clash(c, rest)
    ensures Registers(c, prefix, rest, h, InsertChild(Bumped(c), rest, prefix + rest, h, compile), compile)
  {
    var w := FindWild(rest);
    if w.start < 0 {
      PlainInserted(c, rest, prefix + rest, h, compile);
      hide *;
      PlainFits(c, prefix, h, compile);
    } else {
      var u, v := rest[..w.start], rest[w.start..];
      Rejoined(rest, w.start);
      assert Plain(u) && v != "" && v[0] == rest[w.start] && u != "";
      if v[0] == '*' {
        assert c.path == u[..|u| - 1] && c.children == [];
        WildLeaf(c, prefix, compile);
        hide *;
        StarFits(c, prefix, u, v, h, compile);
      } else {
        assert c.path == u && !c.wildChild;
        hide *;
        TokenFitsChild(c, prefix, u, v, h, compile);
      }
    }
  }

  lemma PlainInserted(c: Tree, rest: string, full: string, h: Handler, compile: Compiler)
    requires Fits(c, rest) && FindWild(rest).start < 0
    ensures c.path == rest && c.route.None? && InsertChild(Bumped(c), rest, full, h, compile) == Ok(SetRoute(Bumped(c), full, h))
  {
    hide FindWild;
  }

  // A node without children has text of its own.
  lemma WildLeaf(c: Tree, prefix: string, compile: Compiler)
    requires WellFormed(c, prefix, compile) && StaticKind(c) && c.children == []
    ensures c.path != ""
  {
  }

  lemma TokenFitsChild(c: Tree, prefix: string, u: string, v: string, h: Handler, compile: Compiler)
    requires WellFormed(Bumped(c), prefix, compile) && SameRoutes(c, Bumped(c)) && StaticKind(c) && !c.wildChild
    requires Plain(u) && u != "" && c.path == u && v != "" && IsMark(v[0]) && v[0] != '*' && Tidy(u + v) && !Clash(c, u + v)
    requires Valid(u + v, compile)
    ensures Registers(c, prefix, u + v, h, InsertChild(Bumped(c), u + v, prefix + (u + v), h, compile), compile)
  {
    PlainTidy(u, v);
    PlainValid(u, v, compile);
    hide WellFormed, InsertChild, Valid, Tidy, Clash, Registers, SameRoutes;
    if IsToken(v[..SegmentEnd(v)]) {
      ParamFits(c, prefix, u, v, h, compile);
    } else {
      BrokenToken(Bumped(c), u, v, prefix + (u + v), h, compile);
    }
  }

  lemma PlainFits(c: Tree, prefix: string, h: Handler, compile: Compiler)
    requires WellFormed(Bumped(c), prefix, compile) && SameRoutes(c, Bumped(c)) && StaticKind(c) && c.path != "" && c.route.None?
    ensures Registers(c, prefix, c.path, h, Ok(SetRoute(Bumped(c), prefix + c.path, h)), compile)
  {
    SetRouteRegisters(Bumped(c), prefix, h, compile);
    hide WellFormed, Clash, Adds, Valid;
    SameClash(c, Bumped(c), prefix, c.path, h, Ok(SetRoute(Bumped(c), prefix + c.path, h)), compile);
  }

  lemma ParamFits(c: Tree, prefix: string, u: string, v: string, h: Handler, compile: Compiler)
    requires WellFormed(Bumped(c), prefix, compile) && SameRoutes(c, Bumped(c)) && StaticKind(c) && !c.wildChild
    requires Plain(u) && u != "" && c.path == u && v != "" && IsToken(v[..SegmentEnd(v)]) && Tidy(v) && !Clash(c, u + v)
    requires Valid(v, compile)
    ensures Registers(c, prefix, u + v, h, InsertChild(Bumped(c), u + v, prefix + (u + v), h, compile), compile)
  {
    ParamTaken(c, prefix, u, v, h, compile);
    var r := InsertChild(Bumped(c), u + v, prefix + (u + v), h, compile);
    var k := Last(r.value.children);
    TokenTail(v);
    PlainValid(u, v, compile);
    ParamAdded(Bumped(c), prefix, k, v, h, compile);
    hide WellFormed, Clash, HasRoute, Valid, InsertChild, Only;
    assert r.value == Bumped(c).(children := Bumped(c).children + [k], wildChild := true);
  }

  // A leaf gets a catch-all below it.
  lemma LeafStar(c: Tree, prefix: string, b: string, h: Handler, compile: Compiler)
    requires WellFormed(c, prefix, compile) && StaticKind(c) && c.children == [] && c.path != ""
    requires |b| >= 3 && b[..2] == "/*" && CleanName(b[2..])
    ensures var t := Bumped(c).(children := [CatchAllNode(CatchAllLeaf(b, prefix + (c.path + b), h))], indices := "/");
            WellFormed(t, prefix, compile) && Adds(c, t, c.path + b, h)
  {
    var full := prefix + (c.path + b);
    var t := Bumped(c).(children := [CatchAllNode(CatchAllLeaf(b, full, h))], indices := "/");
    var m := EMPTY_TREE.(path := c.path, children := t.children, indices := "/");
    assert Local(c, prefix, compile);
    Concat(prefix, c.path, b);
    CatchAllWellFormed(EMPTY_TREE, prefix, c.path, b, full, h, compile);
    assert Local(t, prefix, compile) && WellFormed(t, prefix, compile);
    forall s, x ensures HasRoute(t, s, x) <==> HasRoute(c, s, x) || (s == c.path + b && x == h) {
      assert HasRoute(m, s, x) <==> s == c.path + b && x == h;
      assert c.path <= s ==> (Below(t, s[|c.path|..], x) <==> Below(m, s[|c.path|..], x));
      assert HasRoute(c, s, x) <==> s == c.path && c.route == Some(x);
    }
  }

  lemma StarFits(c: Tree, prefix: string, u: string, v: string, h: Handler, compile: Compiler)
    requires WellFormed(c, prefix, compile) && StaticKind(c) && c.children == [] && c.path != "" && Last(c.path) != '/'
    requires Plain(u) && u != "" && v != "" && v[0] == '*' && c.path == u[..|u| - 1] && !Clash(c, u + v)
    requires Valid(u + v, compile)
    ensures Registers(c, prefix, u + v, h, InsertChild(Bumped(c), u + v, prefix + (u + v), h, compile), compile)
  {
    StarOk(c, prefix, u, v, h, compile);
    StarTaken(c, prefix, u, v, h, compile);
    SlashMoves(u, v);
    StarValid(u, v, compile);
    LeafStar(c, prefix, "/" + v, h, compile);
    hide WellFormed, Clash, Adds, HasRoute, Valid, InsertChild;
  }

  // ---- At the token ----

  // The child the walkers enter, and one nobody does.
  lemma SpareAdded(n: Tree, prefix: string, t: Tree, rest: string, h: Handler, compile: Compiler)
    requires WellFormed(n, prefix, compile) && n.nType == RegexNode && n.path != "" && |n.children| == 1
    requires WellFormed(t, prefix + n.path, compile) && t.nType == n.children[0].nType && First(t) == First(n.children[0])
    requires StaticKind(t) && Adds(n.children[0], t, rest, h)
    ensures var m := n.(indices := "/", children := [t, EMPTY_TREE]);
            WellFormed(m, prefix, compile) && Adds(n, m, n.path + rest, h)
  {
    var k, m := n.(children := n.children[0 := t]), n.(indices := "/", children := [t, EMPTY_TREE]);
    ChildReplaced(n, prefix, 0, t, rest, h, compile);
    assert Spare(m, 1) && Local(m, prefix, compile);
    assert m.children[0] == t && k.children[0] == t && k.children == [t];
    forall s, x ensures HasRoute(k, s, x) <==> HasRoute(m, s, x) {
      if n.path <= s { OnlyFirstServes(k, m, t, s[|n.path|..], x); }
    }
    hide HasRoute, WellFormed;
  }

  lemma OnlyFirstServes(k: Tree, m: Tree, t: Tree, s: string, x: Handler)
    requires k.children == [t] && m.children == [t, EMPTY_TREE]
    ensures Below(k, s, x) <==> Below(m, s, x)
  {
    assert !HasRoute(EMPTY_TREE, s, x);
    assert k.children[0] == t && m.children[0] == t && m.children[1] == EMPTY_TREE;
  }

  // What is valid and what clashes at the token is so at the child.
  lemma StuckContext(n: Tree, prefix: string, rest: string, compile: Compiler)
    requires WellFormed(n, prefix, compile) && n.path != "" && Stuck(n, rest) && rest[0] == '/'
    ensures |n.children| == 1 && !n.wildChild && TokenKind(n) && n.indices == "" && StaticKind(n.children[0]) && rest != ""
    ensures WellFormed(n.children[0], prefix + n.path, compile) && Continues(n, rest) && OwnsByte(n, 0, rest)
    ensures Valid(n.path + rest, compile) == Valid(rest, compile)
    ensures Clash(n, n.path + rest) <==> Clash(n.children[0], rest)
  {
    StuckChild(n, prefix, compile);
    ChildWellFormed(n, prefix, 0, compile);
    assert Continues(n, rest) && OwnsByte(n, 0, rest);
    ContinueValid(n, prefix, rest, compile);
    hide WellFormed, Clash, Valid, Stuck, OwnsByte, Continues;
    ClashIsBelow(n, prefix, rest, compile);
    ClashInChild(n, prefix, rest, 0, compile);
  }

  lemma StuckRegisters(n: Tree, prefix: string, rest: string, full: string, h: Handler, compile: Compiler)
    requires WellFormed(n, prefix, compile) && Shape(n) && n.path != "" && Stuck(n, rest) && rest[0] == '/' && Tidy(rest)
    requires full == prefix + n.path + rest && (Valid(rest, compile) ==> Fits(n.children[0], rest))
    ensures Registers(n, prefix, n.path + rest, h, AddBelow(n, rest, full, h, compile), compile)
  {
    var c, q := n.children[0], prefix + n.path;
    StuckContext(n, prefix, rest, compile);
    assert n.nType == RegexNode;
    hide WellFormed, InsertChild, AddBelow, Clash, Adds, Valid, Stuck, Tidy, Fits, OwnsByte, Continues, Shape;
    StuckIs(n, rest, full, h, compile);
    FitsRegisters(c, q, rest, h, compile);
    var r := InsertChild(Bumped(c), rest, full, h, compile);
    if r.Ok? { SpareAdded(n, prefix, r.value, rest, h, compile); }
  }
}
