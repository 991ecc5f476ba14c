// Pairs of registrations of which the second does harm without a panic: two
// suffixes of the same regular expression parameter.
module RegexExample {
  import opened Wrappers
  import opened Patterns
  import opened RouteTree
  import opened RouteSet
  import opened TreeInsert
  import opened TreeLookup
  import opened SuffixFits
  import opened RegexSuffix
  import opened SuffixWalks

  // ---- Registering two suffixes of one parameter ----

  // A pattern that begins with the parameter.
  function Behind(rest: string): string { "/{a:x}" + rest }

  const TOKEN := "{a:x}"

  function ExampleToken(priority: nat, re: Regexp, children: seq<Tree>, indices: string): Tree {
    EMPTY_TREE.(path := TOKEN, nType := RegexNode, regexp := Some(re), nameEnd := 2, priority := priority,
               children := children, indices := indices)
  }

  function SlashRoot(priority: nat, maxParams: nat, token: Tree): Tree {
    EMPTY_TREE.(path := "/", nType := RootNode, wildChild := true, priority := priority, maxParams := maxParams, children := [token])
  }

  predicate Suffix(rest: string) { rest != "" && rest[0] == '/' }

  lemma TokenFirst(rest: string)
    requires Suffix(rest)
    ensures FindWild(Behind(rest)) == Wild(TOKEN, 1, true)
    ensures Behind(rest)[1..] == TOKEN + rest && Behind(rest)[..1] == "/"
  {
    var p := Behind(rest);
    assert p[0] == '/' && p[1..] == TOKEN + rest;
    SegmentEndIs(p[1..], 5);
    assert p[1..][..5] == TOKEN;
    assert LastIndexOf(TOKEN, '}') == 4;
  }

  lemma InsertExample(n: Tree, rest: string, full: string, h: Handler, compile: Compiler)
    requires compile("x").Some? && rest != ""
    ensures InsertRegex(n, TOKEN, TOKEN + rest, full, h, compile)
         == match InsertChild(EMPTY_TREE.(priority := 1), rest, full, h, compile)
            case Ok(s) => Ok(n.(children := n.children + [ExampleToken(1, compile("x").value, [s], "")], wildChild := true))
            case Panic => Panic
  {
    var path := TOKEN + rest;
    assert TOKEN[1..] == "a:x}" && "a:x}"[1..] == ":x}" && IndexOf(":x}", ':') == 0;
    assert TOKEN[3..4] == "x";
    assert path[5..] == rest;
    hide InsertChild;
  }

  lemma InsertBehind(n: Tree, rest: string, full: string, h: Handler, compile: Compiler)
    requires Suffix(rest)
    ensures InsertChild(n, Behind(rest), full, h, compile) == InsertRegex(n.(path := "/"), TOKEN, TOKEN + rest, full, h, compile)
  {
    TokenFirst(rest);
    hide FindWild, InsertRegex;
  }

  // The first suffix, at an empty tree.
  lemma FirstOf(rest: string, s: Tree, h: Handler, compile: Compiler)
    requires compile("x").Some? && Suffix(rest)
    requires InsertChild(EMPTY_TREE.(priority := 1), rest, Behind(rest), h, compile) == Ok(s)
    ensures Shape(EMPTY_TREE)
    ensures AddPattern(EMPTY_TREE, Behind(rest), h, compile)
         == Ok(SlashRoot(1, RaisedMax(0, CountParams(Behind(rest))), ExampleToken(1, compile("x").value, [s], "")))
  {
    var token := ExampleToken(1, compile("x").value, [s], "");
    InsertBehind(Bumped(EMPTY_TREE), rest, Behind(rest), h, compile);
    InsertExample(Bumped(EMPTY_TREE).(path := "/"), rest, Behind(rest), h, compile);
    hide InsertChild, InsertRegex, CountParams, Behind;
    assert [] + [token] == [token];
  }

  // The next suffix takes the child over.
  lemma SecondOf(max: nat, re: Regexp, s: Tree, rest: string, t: Tree, x: Handler, compile: Compiler)
    requires Suffix(rest) && Shape(s) && InsertChild(Bumped(s), rest, Behind(rest), x, compile) == Ok(t)
    ensures Shape(SlashRoot(1, max, ExampleToken(1, re, [s], "")))
    ensures AddPattern(SlashRoot(1, max, ExampleToken(1, re, [s], "")), Behind(rest), x, compile)
         == Ok(SlashRoot(2, RaisedMax(max, CountParams(Behind(rest))), ExampleToken(2, re, [t, EMPTY_TREE], "/")))
  {
    var token, next := ExampleToken(1, re, [s], ""), ExampleToken(2, re, [t, EMPTY_TREE], "/");
    TokenFields(re, s);
    hide *;
    TokenWalk(re, s, rest, t, x, compile);
    RootWalk(max, token, next, rest, x, compile);
    LabelRoot(max, token, next, rest, x, compile);
  }

  lemma TokenFields(re: Regexp, s: Tree)
    requires Shape(s)
    ensures var token := ExampleToken(1, re, [s], "");
            && token.path == TOKEN && Shape(token) && Shape(Bumped(token)) && token.nType == RegexNode
            && forall max, p :: Shape(SlashRoot(p, max, token))
  {
    var token := ExampleToken(1, re, [s], "");
    assert token.children[0] == s;
    assert Shape(token);
    forall max, p ensures Shape(SlashRoot(p, max, token)) {
      assert SlashRoot(p, max, token).children[0] == token;
    }
  }

  lemma {:induction false} PrefixOf(a: string, b: string)
    ensures CommonPrefix(a + b, a) == |a| && (a + b)[|a|..] == b
  {
    if a != "" {
      assert (a + b)[1..] == a[1..] + b;
      PrefixOf(a[1..], b);
    }
  }

  lemma TokenWalk(re: Regexp, s: Tree, rest: string, t: Tree, x: Handler, compile: Compiler)
    requires Suffix(rest) && Shape(s) && InsertChild(Bumped(s), rest, Behind(rest), x, compile) == Ok(t)
    ensures var n := Bumped(ExampleToken(1, re, [s], ""));
            && Shape(n)
            && AddWalk(n, TOKEN + rest, Behind(rest), x, compile) == Ok(ExampleToken(2, re, [t, EMPTY_TREE], "/"))
  {
    var n := Bumped(ExampleToken(1, re, [s], ""));
    TokenFields(re, s);
    PrefixOf(TOKEN, rest);
    hide InsertChild, Behind, TOKEN;
    StuckIs(n, rest, Behind(rest), x, compile);
  }

  lemma RootWalk(max: nat, token: Tree, next: Tree, rest: string, x: Handler, compile: Compiler)
    requires Suffix(rest) && token.path == TOKEN && token.nType == RegexNode && Shape(Bumped(token))
    requires Shape(SlashRoot(2, max, token))
    requires AddWalk(Bumped(token), TOKEN + rest, Behind(rest), x, compile) == Ok(next)
    ensures AddWalk(SlashRoot(2, max, token), Behind(rest), Behind(rest), x, compile) == Ok(SlashRoot(2, max, next))
  {
    var n, path := SlashRoot(2, max, token), TOKEN + rest;
    BehindIs(rest);
    PrefixOf("/", path);
    RootGoesOn(n, token, path);
    assert [token][0 := next] == [next] && n.path == "/" && SlashRoot(2, max, next) == n.(children := [next]);
    hide AddWalk, Shape, Behind, TOKEN, Chosen, Moves, SlashRoot;
    BelowIs(n, path, Behind(rest), x, compile);
    WalkIsBelow(n, Behind(rest), Behind(rest), x, compile);
  }

  lemma BehindIs(rest: string)
    ensures Behind(rest) == "/" + (TOKEN + rest)
  {
  }

  // From the root "/" into its wildcard child.
  lemma RootGoesOn(n: Tree, token: Tree, path: string)
    requires Shape(n) && n.nType == RootNode && n.wildChild && n.children == [token] && n.indices == ""
    requires path != "" && path[0] == '{' && token.path <= path && token.nType == RegexNode
    requires |token.path| < |path| && path[|token.path|] == '/'
    ensures Chosen(n, path) == 0 && !Moves(n, path) && Entered(n, 0) == Bumped(token)
  {
  }

  lemma LabelRoot(max: nat, token: Tree, next: Tree, rest: string, x: Handler, compile: Compiler)
    requires Shape(SlashRoot(1, max, token)) && Shape(SlashRoot(2, max, token))
    requires AddWalk(SlashRoot(2, max, token), Behind(rest), Behind(rest), x, compile) == Ok(SlashRoot(2, max, next))
    ensures AddPattern(SlashRoot(1, max, token), Behind(rest), x, compile)
         == Ok(SlashRoot(2, RaisedMax(max, CountParams(Behind(rest))), next))
  {
    assert Bumped(SlashRoot(1, max, token)) == SlashRoot(2, max, token);
    hide AddWalk, CountParams, Behind, Shape;
  }

  // ---- What comes of it ----

  // Two registrations, one after the other.
  function Twice(first: string, h: Handler, second: string, x: Handler, compile: Compiler): Result<Tree> {
    PatternShape(EMPTY_TREE, Behind(first), h, compile);
    match AddPattern(EMPTY_TREE, Behind(first), h, compile)
    case Ok(t) => AddPattern(t, Behind(second), x, compile)
    case Panic => Panic
  }

  lemma TwiceIs(first: string, s: Tree, h: Handler, second: string, t: Tree, x: Handler, compile: Compiler)
    requires compile("x").Some? && Suffix(first) && Suffix(second)
    requires InsertChild(Bumped(EMPTY_TREE), first, Behind(first), h, compile) == Ok(s)
    requires InsertChild(Bumped(s), second, Behind(second), x, compile) == Ok(t)
    ensures var r := Twice(first, h, second, x, compile);
            && r.Ok? && (Walkable(r.value) <==> Walkable(t))
            && forall y, p :: Reaches(r.value, y, p) ==> Reaches(t, y, p)
  {
    var re, max := compile("x").value, RaisedMax(0, CountParams(Behind(first)));
    InsertShape(Bumped(EMPTY_TREE), first, Behind(first), h, compile);
    hide InsertChild, AddPattern, Behind, CountParams, RaisedMax;
    FirstOf(first, s, h, compile);
    SecondOf(max, re, s, second, t, x, compile);
    var r := Twice(first, h, second, x, compile);
    var m := RaisedMax(max, CountParams(Behind(second)));
    RootWalks(m, re, t);
    forall y, p | Reaches(r.value, y, p) ensures Reaches(t, y, p) { RootReaches(m, re, t, y, p); }
  }

  lemma RootWalks(max: nat, re: Regexp, t: Tree)
    ensures Walkable(SlashRoot(2, max, ExampleToken(2, re, [t, EMPTY_TREE], "/"))) <==> Walkable(t)
  {
    var token := ExampleToken(2, re, [t, EMPTY_TREE], "/");
    assert token.children[0] == t && token.children[1] == EMPTY_TREE && Walkable(EMPTY_TREE);
    assert Walkable(token) <==> Walkable(t);
    var root := SlashRoot(2, max, token);
    assert root.children[0] == token && Last(root.children) == token && WildLocal(token);
  }

  lemma RootReaches(max: nat, re: Regexp, t: Tree, y: Handler, p: string)
    requires Reaches(SlashRoot(2, max, ExampleToken(2, re, [t, EMPTY_TREE], "/")), y, p)
    ensures Reaches(t, y, p)
  {
    var token := ExampleToken(2, re, [t, EMPTY_TREE], "/");
    var root := SlashRoot(2, max, token);
    assert Reaches(root.children[0], y, p) && root.children[0] == token;
    assert Leads(token, 0) && !Leads(token, 1);
    assert token.children[0] == t;
  }

  // No lookup returns this pattern.
  ghost predicate NeverFound(t: Tree, p: string)
    requires Walkable(t)
  {
    forall path, ci :: Lookup(t, path, ci).found.Some? ==> Lookup(t, path, ci).found.value.pattern != p
  }

  lemma OutOfReach(t: Tree, p: string)
    requires Walkable(t) && forall y :: !Reaches(t, y, p)
    ensures NeverFound(t, p)
  {
    forall path, ci ensures Lookup(t, path, ci).found.Some? ==> Lookup(t, path, ci).found.value.pattern != p {
      FoundIsReached(t, path, ci, false);
      hide Search, Reaches;
    }
  }

  // Other text behind the parameter: the first route is gone.
  lemma FirstRouteLost(h: Handler, x: Handler, compile: Compiler)
    requires compile("x").Some?
    ensures var r := Twice("/b", h, "/c", x, compile);
            r.Ok? && Walkable(r.value) && NeverFound(r.value, Behind("/b"))
  {
    var s := SetRoute(Bumped(EMPTY_TREE).(path := "/b"), Behind("/b"), h);
    var t := SetRoute(Bumped(s).(path := "/c"), Behind("/c"), x);
    assert InsertChild(Bumped(EMPTY_TREE), "/b", Behind("/b"), h, compile) == Ok(s);
    assert InsertChild(Bumped(s), "/c", Behind("/c"), x, compile) == Ok(t);
    assert t.children == [] && Walkable(t);
    assert Behind("/b")[7] != Behind("/c")[7];
    hide InsertChild, Behind, SetRoute, Twice, NeverFound;
    TwiceIs("/b", s, h, "/c", t, x, compile);
    OutOfReach(Twice("/b", h, "/c", x, compile).value, Behind("/b"));
  }

  // A named parameter behind the text a child gets.
  lemma NamedSuffix(c: Tree, u: string, v: string, h: Handler, compile: Compiler) returns (k: Tree)
    requires Plain(u) && u != "" && NamedOne(v)
    ensures InsertChild(Bumped(c), u + v, Behind(u + v), h, compile) == Ok(Bumped(c).(path := u, children := c.children + [k], wildChild := true))
    ensures TokenKind(k) && WellFormed(k, Behind(u), compile) && Only(k, v, h)
  {
    NamedToken(v, compile);
    assert v != "" && Behind("") + (u + v) == Behind(u + v) && Behind("") + u == Behind(u);
    hide *;
    ParamTaken(c, Behind(""), u, v, h, compile);
    k := Last(InsertChild(Bumped(c), u + v, Behind(u + v), h, compile).value.children);
  }

  lemma NamedToken(v: string, compile: Compiler)
    requires NamedOne(v)
    ensures IsToken(v[..SegmentEnd(v)]) && Tidy(v) && Valid(v, compile) && Uncons(v) == Named(v, "")
  {
    SegmentEndIs(v, 2);
    assert v[..2] == v && v[2..] == "";
  }

  lemma BehindConflict(s: string, t: string)
    requires Suffix(s) && Suffix(t)
    ensures Conflict(Behind(s), Behind(t)) == Conflict(s, t)
  {
    BehindIs(s);
    BehindIs(t);
    assert IsToken(TOKEN) && '/' !in TOKEN && Plain("/") && NoStar(TOKEN + s) && NoStar(TOKEN + t);
    hide Behind, TOKEN, Conflict;
    PlainConflict("/", TOKEN + s, TOKEN + t);
    TokenConflict(TOKEN, s, t);
  }

  lemma TokenConflict(token: string, s: string, t: string)
    requires IsToken(token) && '/' !in token && Suffix(s) && Suffix(t)
    ensures Conflict(token + s, token + t) == Conflict(s, t)
  {
    UnconsToken(token, s);
    UnconsToken(token, t);
  }

  lemma ParamsConflict(u: string, v: string, w: string)
    requires Plain(u) && Suffix(u) && NoStar(v) && NoStar(w) && Uncons(v) == Named(v, "") && Uncons(w) == Named(w, "") && v != w
    ensures Conflict(Behind(u + v), Behind(u + w))
  {
    BehindConflict(u + v, u + w);
    PlainConflict(u, v, w);
    hide Behind, Uncons;
  }

  // A wildcard child that has come behind another hides it.
  lemma HiddenChild(t: Tree, k: Tree, l: Tree, prefix: string, w: string, x: Handler, y: Handler, p: string, compile: Compiler)
    requires t.children == [k, l] && t.indices == "" && StaticKind(t) && t.route.None?
    requires WellFormed(l, prefix, compile) && Only(l, w, x) && Reaches(t, y, p)
    ensures p == prefix + w
  {
    var j :| 0 <= j < |t.children| && Leads(t, j) && Reaches(t.children[j], y, p);
    assert j == 1;
    var s := ReachesRoute(l, prefix, y, p, compile);
  }

  lemma TwoWalk(t: Tree, k: Tree, l: Tree, prefix: string, compile: Compiler)
    requires t.children == [k, l] && t.indices == "" && t.wildChild && t.route.None? && t.pattern == ""
    requires WellFormed(k, prefix, compile) && WellFormed(l, prefix, compile) && TokenKind(l)
    ensures Walkable(t)
  {
    WellFormedWalkable(k, prefix, compile);
    WellFormedWalkable(l, prefix, compile);
    WildIsLocal(l, prefix, compile);
    hide WellFormed, WildLocal;
    assert t.children[0] == k && t.children[1] == l && Last(t.children) == l;
  }

  // The same text and another parameter: the patterns conflict, but the second
  // is accepted, and the first route is out of reach.
  lemma FirstParamLost(h: Handler, x: Handler, compile: Compiler)
    requires compile("x").Some?
    ensures Conflict(Behind("/b/:c"), Behind("/b/:d"))
    ensures var r := Twice("/b/:c", h, "/b/:d", x, compile);
            r.Ok? && Walkable(r.value) && NeverFound(r.value, Behind("/b/:c"))
  {
    var u, v, w := "/b/", ":c", ":d";
    assert u + v == "/b/:c" && u + w == "/b/:d" && Plain(u) && Suffix(u);
    hide *;
    ParamLost(u, v, h, w, x, compile);
  }

  predicate NamedOne(v: string) { |v| == 2 && v[0] == ':' && !IsMark(v[1]) && v[1] != '/' }

  lemma ParamLost(u: string, v: string, h: Handler, w: string, x: Handler, compile: Compiler)
    requires compile("x").Some? && Plain(u) && Suffix(u) && NamedOne(v) && NamedOne(w) && v != w
    ensures Conflict(Behind(u + v), Behind(u + w))
    ensures var r := Twice(u + v, h, u + w, x, compile);
            r.Ok? && Walkable(r.value) && NeverFound(r.value, Behind(u + v))
  {
    assert u != "";
    hide *;
    var k := NamedSuffix(EMPTY_TREE, u, v, h, compile);
    var s := OneNamed(u, k);
    var l := NamedSuffix(s, u, w, x, compile);
    NamedIs(u, k, l);
    NamedTexts(u, v, w, compile);
    ParamsConflict(u, v, w);
    TwiceIs(u + v, s, h, u + w, TwoNamed(u, k, l), x, compile);
    HiddenFirst(Twice(u + v, h, u + w, x, compile).value, TwoNamed(u, k, l), k, l, u, v, w, x, compile);
  }

  // A node with one parameter below it, and with two.
  function OneNamed(u: string, k: Tree): Tree { Bumped(EMPTY_TREE).(path := u, children := [k], wildChild := true) }

  function TwoNamed(u: string, k: Tree, l: Tree): Tree { Bumped(OneNamed(u, k)).(path := u, children := [k, l], wildChild := true) }

  lemma NamedIs(u: string, k: Tree, l: Tree)
    ensures Bumped(EMPTY_TREE).(path := u, children := EMPTY_TREE.children + [k], wildChild := true) == OneNamed(u, k)
    ensures var s, t := OneNamed(u, k), TwoNamed(u, k, l);
            && Bumped(s).(path := u, children := s.children + [l], wildChild := true) == t
            && t.children == [k, l] && t.indices == "" && StaticKind(t) && t.route.None? && t.pattern == "" && t.wildChild
  {
    assert EMPTY_TREE.children + [k] == [k] && [k] + [l] == [k, l];
  }

  lemma NamedTexts(u: string, v: string, w: string, compile: Compiler)
    requires Suffix(u) && NamedOne(v) && NamedOne(w) && v != w
    ensures NoStar(v) && NoStar(w) && Uncons(v) == Named(v, "") && Uncons(w) == Named(w, "")
    ensures Suffix(u + v) && Suffix(u + w) && Behind(u + v) != Behind(u) + w
  {
    NamedToken(v, compile);
    NamedToken(w, compile);
    SuffixText(u, v);
    SuffixText(u, w);
    assert Behind(u + v) == Behind(u) + v;
    PrefixFree(Behind(u), v, w);
  }

  lemma SuffixText(u: string, v: string)
    requires Suffix(u)
    ensures Suffix(u + v)
  {
  }

  lemma HiddenFirst(r: Tree, t: Tree, k: Tree, l: Tree, u: string, v: string, w: string, x: Handler, compile: Compiler)
    requires t.children == [k, l] && t.indices == "" && StaticKind(t) && t.route.None? && t.pattern == "" && t.wildChild
    requires WellFormed(k, Behind(u), compile) && WellFormed(l, Behind(u), compile) && TokenKind(l) && Only(l, w, x)
    requires (Walkable(r) <==> Walkable(t)) && forall y, p :: Reaches(r, y, p) ==> Reaches(t, y, p)
    requires Behind(u + v) != Behind(u) + w
    ensures Walkable(r) && NeverFound(r, Behind(u + v))
  {
    hide *;
    TwoWalk(t, k, l, Behind(u), compile);
    forall y ensures !Reaches(r, y, Behind(u + v)) {
      if Reaches(r, y, Behind(u + v)) { HiddenChild(t, k, l, Behind(u), w, x, y, Behind(u + v), compile); }
    }
    OutOfReach(r, Behind(u + v));
  }

  // A catch-all behind a child with a parameter: the last child is taken for a
  // wildcard child and is none.
  lemma TreeBroken(h: Handler, x: Handler, compile: Compiler)
    requires compile("x").Some?
    ensures var r := Twice("/b:c", h, "/z/*w", x, compile); r.Ok? && !Walkable(r.value)
  {
    var u, v, a, b := "/b", ":c", "/z/", "*w";
    assert u + v == "/b:c" && a + b == "/z/*w" && Plain(u) && Plain(a);
    var k := NamedSuffix(EMPTY_TREE, u, v, h, compile);
    var s := Bumped(EMPTY_TREE).(path := u, children := [k], wildChild := true);
    assert EMPTY_TREE.children + [k] == [k];
    assert CleanName(b[1..]);
    assert Behind("") + (a + b) == Behind(a + b);
    StarValid(a, b, compile);
    StarOk(s, Behind(""), a, b, x, compile);
    StarTaken(s, Behind(""), a, b, x, compile);
    var t := InsertChild(Bumped(s), a + b, Behind(a + b), x, compile).value;
    assert t.wildChild && |t.indices| == 1 && |t.children| == 1;
    hide InsertChild, Behind, Twice, WellFormed, Only, Valid;
    TwiceIs(u + v, s, h, a + b, t, x, compile);
  }
}
