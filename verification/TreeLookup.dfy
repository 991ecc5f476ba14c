// What a lookup computes, as a function of the tree: static children first,
// then the wildcard child if the static branch holds no match. The walkers in
// Walkers.dfy are proved against this, and this against the declarative
// matcher.
module TreeLookup {
  import opened Wrappers
  import opened Patterns
  import opened RouteTree
  import opened RouteSet
  import opened TreeInsert

  datatype Found = Found(handler: Handler, pattern: string, caps: seq<Param>)

  // A hit carries the trailing-slash flag as it stands then; a miss carries
  // the flag's last value and whether any failed attempt had set it.
  datatype Outcome = Hit(found: Found, tsr: bool) | Miss(last: bool, saw: bool)

  // ---- Byte comparison ----

  function Lower(c: char): char { if 'A' <= c <= 'Z' then c + 32 as char else c }

  predicate FoldEq(a: char, b: char, ci: bool) { if ci then Lower(a) == Lower(b) else a == b }

  predicate PrefixMatch(s: string, prefix: string, ci: bool) {
    |s| == |prefix| && forall i | 0 <= i < |s| :: FoldEq(s[i], prefix[i], ci)
  }

  // The first static child whose byte matches, or -1.
  function FindIndex(indices: string, c: char, ci: bool): (j: int)
    ensures -1 <= j < |indices|
    ensures j >= 0 ==> FoldEq(c, indices[j], ci)
    ensures forall i | 0 <= i < (if j < 0 then |indices| else j) :: !FoldEq(c, indices[i], ci)
  {
    if indices == "" then -1
    else if FoldEq(c, indices[0], ci) then 0
    else var j := FindIndex(indices[1..], c, ci); if j < 0 then -1 else j + 1
  }

  // ---- Trees a walker can follow ----

  predicate WildLocal(n: Tree) {
    match n.nType
    case ParamNode => |n.path| >= 1
    case RegexNode => n.regexp.Some? && 1 <= n.nameEnd <= |n.path|
    case WildcardNode => |n.path| >= 2
    case _ => false
  }

  predicate Walkable(n: Tree)
    decreases n
  {
    && |n.indices| <= |n.children|
    && (n.wildChild ==> |n.indices| < |n.children| && WildLocal(Last(n.children)))
    && (n.route.None? ==> n.pattern == "")
    && forall j | 0 <= j < |n.children| :: Walkable(n.children[j])
  }

  // ---- Lookup ----

  function Fail(tsr: bool): Outcome { Miss(tsr, tsr) }

  function After(o: Outcome, saw: bool): Outcome {
    match o
    case Hit(_, _) => o
    case Miss(last, s) => Miss(last, saw || s)
  }

  function Captured(cap: Param, o: Outcome): Outcome {
    match o
    case Hit(f, tsr) => Hit(f.(caps := [cap] + f.caps), tsr)
    case Miss(_, _) => o
  }

  // The trailing-slash hint at a node without a handler that the path ends at.
  predicate SlashHint(n: Tree, path: string)
    requires |n.indices| <= |n.children|
  {
    var j := IndexOf(n.indices, '/');
    if j >= 0 then
      var m := n.children[j];
      || (m.path == "/" && m.route.Some?)
      || (m.wildChild && |m.children| > 0 && m.children[0].nType == WildcardNode && m.children[0].route.Some?)
    else path == "/"
  }

  // ... and at a node whose text the path does not cover.
  predicate ShortHint(n: Tree, path: string, ci: bool) {
    || path == "/"
    || (|n.path| == |path| + 1 && n.path[|path|] == '/' && PrefixMatch(path, n.path[..|path|], ci) && n.route.Some?)
  }

  function Search(n: Tree, path: string, ci: bool, last: bool): Outcome
    requires Walkable(n)
    decreases n
  {
    if |path| > |n.path| then
      if !PrefixMatch(path[..|n.path|], n.path, ci) then Miss(last, last)
      else
        var rest := path[|n.path|..];
        var j := FindIndex(n.indices, rest[0], ci);
        if j >= 0 then
          var o := Search(n.children[j], rest, ci, last);
          if o.Miss? && n.wildChild then After(SearchWild(Last(n.children), rest, ci, o.last), o.saw) else o
        else if n.wildChild then SearchWild(Last(n.children), rest, ci, last)
        else Fail(rest == "/" && n.route.Some?)
    else if PrefixMatch(path, n.path, ci) then
      if n.route.Some? then Hit(Found(n.route.value, n.pattern, []), last) else Fail(SlashHint(n, path))
    else Fail(ShortHint(n, path, ci))
  }

  function SearchWild(n: Tree, path: string, ci: bool, last: bool): Outcome
    requires Walkable(n) && WildLocal(n) && path != ""
    decreases n
  {
    if n.nType == WildcardNode then
      if n.route.Some? then Hit(Found(n.route.value, n.pattern, [Param(n.path[2..], path)]), last)
      else Miss(last, last)
    else
      var e := SegmentEnd(path);
      if e == 0 || !Accepts(n, path[..e]) then Miss(last, last)
      else
        var cap := Param(WildName(n), path[..e]);
        if e == |path| then
          if n.route.Some? then Hit(Found(n.route.value, n.pattern, [cap]), last)
          else if |n.children| == 1 then Fail(n.children[0].path == "/" && n.children[0].route.Some?)
          else Miss(last, last)
        else if |n.children| > 0 then Captured(cap, Search(n.children[0], path[e..], ci, last))
        else Fail(|path| == e + 1)
  }

  predicate Accepts(n: Tree, segment: string)
    requires WildLocal(n)
  {
    n.nType == RegexNode ==> n.regexp.value(segment)
  }

  function WildName(n: Tree): string
    requires WildLocal(n) && n.nType != WildcardNode
  {
    if n.nType == RegexNode then n.path[1..n.nameEnd] else n.path[1..]
  }

  // What a whole lookup returns: the match if there is one, and the hint.
  datatype Answer = Answer(found: Option<Found>, tsr: bool)

  function Final(o: Outcome): Answer {
    match o
    case Hit(f, tsr) => Answer(Some(f), tsr)
    case Miss(_, saw) => Answer(None, saw)
  }

  function Lookup(root: Tree, path: string, ci: bool): Answer
    requires Walkable(root)
  {
    Final(Search(root, path, ci, false))
  }

  lemma {:induction false} WellFormedWalkable(n: Tree, prefix: string, compile: Compiler)
    requires WellFormed(n, prefix, compile)
    ensures Walkable(n)
    decreases n
  {
    forall j | 0 <= j < |n.children| ensures Walkable(n.children[j]) {
      if !Spare(n, j) { WellFormedWalkable(n.children[j], prefix + n.path, compile); }
    }
    if n.wildChild {
      assert Local(Last(n.children), prefix + n.path, compile);
    }
  }

  // ---- The lookup against the declarative matcher ----

  // Which request paths a pattern describes when literal bytes are compared
  // with or without folding; what a parameter takes is never folded.
  predicate Describes(pat: string, path: string, ci: bool, compile: Compiler)
    decreases |pat|
  {
    match Uncons(pat)
    case End => path == ""
    case Named(token, rest) =>
      var e := SegmentEnd(path); Takes(token, path[..e], compile) && Describes(rest, path[e..], ci, compile)
    case CatchAll(_) => path != "" && path[0] == '/'
    case Literal(c, rest) => path != "" && FoldEq(path[0], c, ci) && Describes(rest, path[1..], ci, compile)
  }

  lemma {:induction false} DescribesExactly(pat: string, path: string, compile: Compiler)
    ensures Describes(pat, path, false, compile) == Matches(pat, path, compile)
    decreases |pat|
  {
    match Uncons(pat)
    case End =>
    case Named(_, rest) => DescribesExactly(rest, path[SegmentEnd(path)..], compile);
    case CatchAll(_) =>
    case Literal(_, rest) => if path != "" { DescribesExactly(rest, path[1..], compile); }
  }

  predicate StartsWith(path: string, u: string, ci: bool) { |u| <= |path| && PrefixMatch(path[..|u|], u, ci) }

  // No byte leads to two children.
  predicate OneWay(n: Tree, ci: bool)
    decreases n
  {
    && (forall i, j | 0 <= i < j < |n.indices| :: !FoldEq(n.indices[i], n.indices[j], ci))
    && forall j | 0 <= j < |n.children| :: OneWay(n.children[j], ci)
  }

  // Without folding that is so in every well-formed tree.
  lemma {:induction false} WellFormedOneWay(n: Tree, prefix: string, compile: Compiler)
    requires WellFormed(n, prefix, compile)
    ensures OneWay(n, false)
    decreases n
  {
    forall j | 0 <= j < |n.children| ensures OneWay(n.children[j], false) {
      if !Spare(n, j) { WellFormedOneWay(n.children[j], prefix + n.path, compile); }
    }
  }

  // `s` is registered with handler `h`, describes the path, and every other
  // registered pattern that describes it gives way to `s`.
  ghost predicate Best(n: Tree, path: string, s: string, h: Handler, ci: bool, compile: Compiler) {
    && HasRoute(n, s, h) && Describes(s, path, ci, compile)
    && forall q, x :: HasRoute(n, q, x) && Describes(q, path, ci, compile) ==> q == s || Prefers(s, q)
  }

  ghost predicate NoMatch(n: Tree, path: string, ci: bool, compile: Compiler) {
    forall q, x :: HasRoute(n, q, x) ==> !Describes(q, path, ci, compile)
  }

  ghost predicate Answers(n: Tree, prefix: string, path: string, o: Outcome, ci: bool, compile: Compiler) {
    match o
    case Hit(f, _) =>
      && prefix <= f.pattern
      && var s := f.pattern[|prefix|..];
         Best(n, path, s, f.handler, ci, compile) && f.caps == Captures(s, path)
    case Miss(_, _) => NoMatch(n, path, ci, compile)
  }

  lemma {:induction false} PlainMatches(u: string, t: string, path: string, ci: bool, compile: Compiler)
    requires Plain(u) && NoStar(t)
    ensures Describes(u + t, path, ci, compile) <==> StartsWith(path, u, ci) && Describes(t, path[|u|..], ci, compile)
    ensures Describes(u + t, path, ci, compile) ==> Captures(u + t, path) == Captures(t, path[|u|..])
    decreases |u|
  {
    if u == "" {
      assert u + t == t && path[0..] == path;
    } else {
      UnconsPlain(u, t);
      hide Takes, StartsWith;
      if path != "" {
        PlainMatches(u[1..], t, path[1..], ci, compile);
        StartsWithTail(path, u, ci);
        if |u| <= |path| { assert path[1..][|u| - 1..] == path[|u|..]; }
      }
    }
  }

  lemma StartsWithTail(path: string, u: string, ci: bool)
    requires path != "" && u != ""
    ensures StartsWith(path, u, ci) <==> FoldEq(path[0], u[0], ci) && StartsWith(path[1..], u[1..], ci)
  {
    if |u| <= |path| {
      var a, b, v := path[..|u|], path[1..][..|u| - 1], u[1..];
      assert a == [path[0]] + b && u == [u[0]] + v;
    }
  }

  lemma {:induction false} PlainPrefers(u: string, s: string, t: string)
    requires Plain(u) && NoStar(s) && NoStar(t)
    ensures Prefers(u + s, u + t) == Prefers(s, t)
    decreases |u|
  {
    if u == "" {
      assert u + s == s && u + t == t;
    } else {
      UnconsPlain(u, s);
      UnconsPlain(u, t);
      PlainPrefers(u[1..], s, t);
    }
  }

  lemma HeadsMatch(t: string, path: string, ci: bool, compile: Compiler)
    requires t != "" && t[0] != '*' && !IsParamMark(t[0]) && Describes(t, path, ci, compile)
    ensures path != "" && FoldEq(path[0], t[0], ci)
  {
  }

  lemma EmptyPathMatch(t: string, ci: bool, compile: Compiler)
    ensures Describes(t, "", ci, compile) <==> t == ""
  {
  }

  // ---- One node's part of the answer ----

  ghost predicate BestBelow(n: Tree, rest: string, t: string, h: Handler, ci: bool, compile: Compiler) {
    && Below(n, t, h) && Describes(t, rest, ci, compile)
    && forall q, x :: Below(n, q, x) && Describes(q, rest, ci, compile) ==> q == t || Prefers(t, q)
  }

  ghost predicate NoMatchBelow(n: Tree, rest: string, ci: bool, compile: Compiler) {
    forall q, x :: Below(n, q, x) ==> !Describes(q, rest, ci, compile)
  }

  // The same for patterns that continue below `n`.
  ghost predicate AnswersBelow(n: Tree, prefix: string, rest: string, o: Outcome, ci: bool, compile: Compiler) {
    match o
    case Hit(f, _) =>
      && prefix + n.path <= f.pattern
      && var t := f.pattern[|prefix + n.path|..];
         BestBelow(n, rest, t, f.handler, ci, compile) && f.caps == Captures(t, rest)
    case Miss(_, _) => NoMatchBelow(n, rest, ci, compile)
  }

  // A route of a static node, without the node's own text.
  lemma StaticRoute(n: Tree, prefix: string, q: string, x: Handler, compile: Compiler) returns (v: string)
    requires WellFormed(n, prefix, compile) && StaticKind(n) && HasRoute(n, q, x)
    ensures q == n.path + v && NoStar(v) && (v == "" || Below(n, v, x))
    ensures v == "" ==> n.route == Some(x)
  {
    v := q[|n.path|..];
    RouteBegins(n, prefix, q, x, compile);
    if Below(n, v, x) {
      var k := RouteChild(n, prefix, v, x, compile);
    }
  }

  lemma LiftBest(n: Tree, prefix: string, path: string, t: string, h: Handler, ci: bool, compile: Compiler)
    requires WellFormed(n, prefix, compile) && StaticKind(n) && StartsWith(path, n.path, ci) && |n.path| < |path|
    requires BestBelow(n, path[|n.path|..], t, h, ci, compile)
    ensures NoStar(t) && Best(n, path, n.path + t, h, ci, compile)
  {
    var j := RouteChild(n, prefix, t, h, compile);
    PlainMatches(n.path, t, path, ci, compile);
    Cut(n.path, t);
    forall q, x | HasRoute(n, q, x) && Describes(q, path, ci, compile) ensures q == n.path + t || Prefers(n.path + t, q) {
      hide WellFormed, HasRoute, Below;
      var v := StaticRoute(n, prefix, q, x, compile);
      PlainMatches(n.path, v, path, ci, compile);
      if v != "" {
        PlainPrefers(n.path, t, v);
      }
    }
  }

  lemma LiftNoMatch(n: Tree, prefix: string, path: string, ci: bool, compile: Compiler)
    requires WellFormed(n, prefix, compile) && StaticKind(n)
    requires StartsWith(path, n.path, ci) && |n.path| < |path| ==> NoMatchBelow(n, path[|n.path|..], ci, compile)
    requires PrefixMatch(path, n.path, ci) ==> n.route.None?
    ensures NoMatch(n, path, ci, compile)
  {
    assert Plain(n.path) by { assert Local(n, prefix, compile); }
    hide WellFormed, HasRoute, Below, Describes, StartsWith, PrefixMatch;
    forall q, x | HasRoute(n, q, x) ensures !Describes(q, path, ci, compile) {
      var v := StaticRoute(n, prefix, q, x, compile);
      PlainMatches(n.path, v, path, ci, compile);
      EndsThere(path, n.path, ci);
      EmptyPathMatch(v, ci, compile);
    }
  }

  lemma EndsThere(path: string, u: string, ci: bool)
    ensures StartsWith(path, u, ci) ==> |u| <= |path|
    ensures |u| == |path| ==> path[|u|..] == "" && StartsWith(path, u, ci) == PrefixMatch(path, u, ci)
  {
    assert |u| == |path| ==> path[..|u|] == path;
  }

  lemma OwnRouteBest(n: Tree, prefix: string, path: string, ci: bool, compile: Compiler)
    requires WellFormed(n, prefix, compile) && StaticKind(n) && n.route.Some? && PrefixMatch(path, n.path, ci)
    ensures Best(n, path, n.path, n.route.value, ci, compile) && Captures(n.path, path) == []
  {
    assert n.path + "" == n.path && path[..|n.path|] == path && path[|n.path|..] == "";
    PlainMatches(n.path, "", path, ci, compile);
    forall q, x | HasRoute(n, q, x) && Describes(q, path, ci, compile) ensures q == n.path {
      var v := StaticRoute(n, prefix, q, x, compile);
      PlainMatches(n.path, v, path, ci, compile);
      EmptyPathMatch(v, ci, compile);
    }
  }

  // From "below `n`" to "at `n`".
  lemma LiftAnswers(n: Tree, prefix: string, path: string, o: Outcome, ci: bool, compile: Compiler)
    requires WellFormed(n, prefix, compile) && StaticKind(n) && StartsWith(path, n.path, ci) && |n.path| < |path|
    requires AnswersBelow(n, prefix, path[|n.path|..], o, ci, compile)
    ensures Answers(n, prefix, path, o, ci, compile)
  {
    match o
    case Hit(f, _) =>
      var t := f.pattern[|prefix + n.path|..];
      ShiftedCut(prefix, n.path, f.pattern);
      hide WellFormed, HasRoute, Best, BestBelow, Captures;
      LiftBest(n, prefix, path, t, f.handler, ci, compile);
      PlainMatches(n.path, t, path, ci, compile);
    case Miss(_, _) => LiftNoMatch(n, prefix, path, ci, compile);
  }

  // ---- Choosing among the children ----

  // A path only matches below the static child of its first byte, or below
  // the wildcard child.
  lemma MatchOwner(n: Tree, prefix: string, q: string, x: Handler, rest: string, ci: bool, compile: Compiler) returns (k: nat)
    requires WellFormed(n, prefix, compile) && StaticKind(n) && rest != "" && Below(n, q, x) && Describes(q, rest, ci, compile)
    ensures k < |n.children| && HasRoute(n.children[k], q, x) && OwnsByte(n, k, q)
    ensures k < |n.indices| ==> FoldEq(rest[0], n.indices[k], ci) && n.indices[k] == q[0]
    ensures k >= |n.indices| ==> n.wildChild && k == |n.children| - 1
  {
    k := RouteChild(n, prefix, q, x, compile);
    if k < |n.indices| { HeadsMatch(q, rest, ci, compile); }
  }

  lemma PreferLiteral(t: string, q: string, rest: string, ci: bool, compile: Compiler)
    requires t != "" && !IsParamMark(t[0]) && Uncons(q).Named? && Describes(t, rest, ci, compile) && Describes(q, rest, ci, compile)
    ensures Prefers(t, q)
  {
    var e := SegmentEnd(rest);
    assert rest[0] != '/';
  }

  // A match below the static child beats anything below the wildcard child.
  lemma StaticHit(n: Tree, prefix: string, rest: string, j: nat, t: string, h: Handler, ci: bool, compile: Compiler)
    requires WellFormed(n, prefix, compile) && StaticKind(n) && rest != "" && j < |n.indices| && FoldEq(rest[0], n.indices[j], ci)
    requires j < |n.children| && Best(n.children[j], rest, t, h, ci, compile) && OneWay(n, ci)
    ensures BestBelow(n, rest, t, h, ci, compile)
  {
    assert Below(n, t, h);
    ChildRouteOwns(n, prefix, j, t, h, compile);
    forall q, x | Below(n, q, x) && Describes(q, rest, ci, compile) ensures q == t || Prefers(t, q) {
      var k := MatchOwner(n, prefix, q, x, rest, ci, compile);
      if k < |n.indices| {
        assert k == j;
      } else {
        PreferLiteral(t, q, rest, ci, compile);
      }
    }
  }

  lemma ChildRouteOwns(n: Tree, prefix: string, j: nat, s: string, h: Handler, compile: Compiler)
    requires WellFormed(n, prefix, compile) && j < |n.children| && HasRoute(n.children[j], s, h)
    ensures OwnsByte(n, j, s)
  {
    RouteBegins(n.children[j], prefix + n.path, s, h, compile);
    BeginsOwns(n, prefix, j, s, compile);
  }

  lemma OnlyWildMatches(n: Tree, prefix: string, rest: string, q: string, x: Handler, ci: bool, compile: Compiler)
    requires WellFormed(n, prefix, compile) && StaticKind(n) && rest != "" && n.wildChild
    requires forall j | 0 <= j < |n.indices| && FoldEq(rest[0], n.indices[j], ci) :: NoMatch(n.children[j], rest, ci, compile)
    requires Below(n, q, x) && Describes(q, rest, ci, compile)
    ensures HasRoute(Last(n.children), q, x)
  {
    hide GoodToken, Uncons, Describes, WellFormed, HasRoute, Below;
    var k := MatchOwner(n, prefix, q, x, rest, ci, compile);
  }

  // With no match below a static child, the wildcard child decides.
  lemma WildDecides(n: Tree, prefix: string, rest: string, o: Outcome, ci: bool, compile: Compiler)
    requires WellFormed(n, prefix, compile) && StaticKind(n) && rest != "" && n.wildChild
    requires forall j | 0 <= j < |n.indices| && FoldEq(rest[0], n.indices[j], ci) :: NoMatch(n.children[j], rest, ci, compile)
    requires Answers(Last(n.children), prefix + n.path, rest, o, ci, compile)
    ensures AnswersBelow(n, prefix, rest, o, ci, compile)
  {
    if o.Hit? {
      var t := o.found.pattern[|prefix + n.path|..];
      assert HasRoute(n.children[|n.children| - 1], t, o.found.handler);
      assert Below(n, t, o.found.handler);
    }
    forall q, x | Below(n, q, x) && Describes(q, rest, ci, compile) ensures HasRoute(Last(n.children), q, x) {
      hide WellFormed, HasRoute, Below;
      OnlyWildMatches(n, prefix, rest, q, x, ci, compile);
    }
  }

  lemma NoChildMatches(n: Tree, prefix: string, rest: string, ci: bool, compile: Compiler)
    requires WellFormed(n, prefix, compile) && StaticKind(n) && rest != "" && !n.wildChild
    requires forall j | 0 <= j < |n.indices| && FoldEq(rest[0], n.indices[j], ci) :: NoMatch(n.children[j], rest, ci, compile)
    ensures NoMatchBelow(n, rest, ci, compile)
  {
    forall q, x | Below(n, q, x) ensures !Describes(q, rest, ci, compile) {
      if Describes(q, rest, ci, compile) {
        var k := MatchOwner(n, prefix, q, x, rest, ci, compile);
      }
    }
  }

  // ---- Below a named parameter ----

  lemma TokenMatches(token: string, t: string, path: string, ci: bool, compile: Compiler)
    requires ParamToken(token, compile) && (t == "" || t[0] == '/')
    ensures var e := SegmentEnd(path);
            && (Describes(token + t, path, ci, compile) <==> Takes(token, path[..e], compile) && Describes(t, path[e..], ci, compile))
            && Captures(token + t, path) == [Param(TokenName(token), path[..e])] + Captures(t, path[e..])
  {
    UnconsToken(token, t);
  }

  lemma TokenPrefers(token: string, s: string, t: string, compile: Compiler)
    requires ParamToken(token, compile) && (s == "" || s[0] == '/') && (t == "" || t[0] == '/')
    ensures Prefers(token + s, token + t) == Prefers(s, t)
  {
    UnconsToken(token, s);
    UnconsToken(token, t);
  }

  // A route of a parameter node, without its token.
  lemma ParamRoute(n: Tree, prefix: string, q: string, x: Handler, compile: Compiler) returns (v: string)
    requires WellFormed(n, prefix, compile) && TokenKind(n) && HasRoute(n, q, x)
    ensures q == n.path + v && (v == "" || v[0] == '/')
    ensures v == "" ==> n.route == Some(x)
    ensures v != "" ==> n.children != [] && HasRoute(n.children[0], v, x)
  {
    v := RouteTail(n, prefix, q, x, compile);
    WholeToken(n, prefix, compile);
    if v != "" { var j := RouteChild(n, prefix, v, x, compile); }
  }

  // A route of a parameter node against a path, by where the path's first
  // segment ends.
  lemma ParamRouteMatch(n: Tree, prefix: string, path: string, q: string, x: Handler, ci: bool, compile: Compiler)
    requires WellFormed(n, prefix, compile) && TokenKind(n) && HasRoute(n, q, x) && Describes(q, path, ci, compile)
    ensures var e := SegmentEnd(path);
            && Takes(n.path, path[..e], compile)
            && (e == |path| ==> q == n.path && n.route == Some(x))
            && (e < |path| ==> n.children != [] && !NoMatch(n.children[0], path[e..], ci, compile))
  {
    var v := ParamRoute(n, prefix, q, x, compile);
    ParamLocalToken(n, prefix, compile);
    hide WellFormed, HasRoute, Takes, Describes, Captures;
    TokenMatches(n.path, v, path, ci, compile);
    if SegmentEnd(path) == |path| { EmptyPathMatch(v, ci, compile); }
  }

  lemma ParamLocalToken(n: Tree, prefix: string, compile: Compiler)
    requires WellFormed(n, prefix, compile) && TokenKind(n)
    ensures ParamToken(n.path, compile)
  {
  }

  lemma ParamNoMatch(n: Tree, prefix: string, path: string, ci: bool, compile: Compiler)
    requires WellFormed(n, prefix, compile) && TokenKind(n)
    requires var e := SegmentEnd(path);
             Takes(n.path, path[..e], compile) ==>
               && (e == |path| ==> n.route.None?)
               && (e < |path| && n.children != [] ==> NoMatch(n.children[0], path[e..], ci, compile))
    ensures NoMatch(n, path, ci, compile)
  {
    hide WellFormed, HasRoute, Describes, Takes;
    forall q, x | HasRoute(n, q, x) ensures !Describes(q, path, ci, compile) {
      if Describes(q, path, ci, compile) { ParamRouteMatch(n, prefix, path, q, x, ci, compile); }
    }
  }

  lemma ParamOwnBest(n: Tree, prefix: string, path: string, ci: bool, compile: Compiler)
    requires WellFormed(n, prefix, compile) && TokenKind(n) && n.route.Some?
    requires SegmentEnd(path) == |path| && Takes(n.path, path, compile)
    ensures Best(n, path, n.path, n.route.value, ci, compile)
    ensures Captures(n.path, path) == [Param(TokenName(n.path), path)]
  {
    assert n.path + "" == n.path && path[..|path|] == path && path[|path|..] == "";
    ParamLocalToken(n, prefix, compile);
    TokenMatches(n.path, "", path, ci, compile);
    hide WellFormed, Below, Describes, Captures, Takes;
    EmptyPathMatch("", ci, compile);
    forall q, x | HasRoute(n, q, x) && Describes(q, path, ci, compile) ensures q == n.path {
      ParamRouteMatch(n, prefix, path, q, x, ci, compile);
    }
    assert Describes(n.path, path, ci, compile);
    assert Captures("", "") == [] by { NothingCaptured(); }
  }

  lemma NothingCaptured()
    ensures Captures("", "") == []
  {
  }

  lemma ParamDeeperBest(n: Tree, prefix: string, path: string, t: string, h: Handler, ci: bool, compile: Compiler)
    requires WellFormed(n, prefix, compile) && TokenKind(n) && n.children != []
    requires var e := SegmentEnd(path); e < |path| && Takes(n.path, path[..e], compile) && Best(n.children[0], path[e..], t, h, ci, compile)
    ensures Best(n, path, n.path + t, h, ci, compile)
    ensures Captures(n.path + t, path)
         == [Param(TokenName(n.path), path[..SegmentEnd(path)])] + Captures(t, path[SegmentEnd(path)..])
  {
    ParamRooted(n, prefix, t, h, compile);
    assert HasRoute(n.children[0], t, h) && Describes(t, path[SegmentEnd(path)..], ci, compile);
    hide WellFormed, HasRoute, Takes, Describes, Captures, Prefers;
    TokenMatches(n.path, t, path, ci, compile);
    forall q, x | HasRoute(n, q, x) && Describes(q, path, ci, compile) ensures q == n.path + t || Prefers(n.path + t, q) {
      ParamBeats(n, prefix, path, t, h, q, x, ci, compile);
    }
  }

  // A route below a parameter, and the same with the parameter's own text.
  lemma ParamRooted(n: Tree, prefix: string, t: string, h: Handler, compile: Compiler)
    requires WellFormed(n, prefix, compile) && TokenKind(n) && n.children != [] && HasRoute(n.children[0], t, h)
    ensures ParamToken(n.path, compile) && t != "" && t[0] == '/' && HasRoute(n, n.path + t, h)
  {
    assert Below(n, t, h);
    var j := RouteChild(n, prefix, t, h, compile);
    Cut(n.path, t);
  }

  lemma ParamBeats(n: Tree, prefix: string, path: string, t: string, h: Handler, q: string, x: Handler, ci: bool, compile: Compiler)
    requires WellFormed(n, prefix, compile) && TokenKind(n) && n.children != [] && HasRoute(n, q, x) && Describes(q, path, ci, compile)
    requires var e := SegmentEnd(path); e < |path| && Best(n.children[0], path[e..], t, h, ci, compile)
    ensures q == n.path + t || Prefers(n.path + t, q)
  {
    ParamRooted(n, prefix, t, h, compile);
    hide WellFormed, HasRoute, Takes, Captures, Prefers;
    var v := ParamRoute(n, prefix, q, x, compile);
    TokenMatches(n.path, v, path, ci, compile);
    if v != "" { TokenPrefers(n.path, t, v, compile); }
  }

  lemma {:induction false} WildAnswers(n: Tree, prefix: string, path: string, last: bool, ci: bool, compile: Compiler)
    requires WellFormed(n, prefix, compile) && Walkable(n) && WildLocal(n) && path != ""
    requires OneWay(n, ci) && (n.nType == WildcardNode ==> path[0] == '/')
    ensures Answers(n, prefix, path, SearchWild(n, path, ci, last), ci, compile)
    decreases n
  {
    if n.nType == WildcardNode {
      LeafAnswers(n, prefix, path, last, ci, compile);
    } else {
      assert TokenKind(n);
      var e := SegmentEnd(path);
      WildIs(n, prefix, path, compile);
      if !Takes(n.path, path[..e], compile) || e == |path| || n.children == [] {
        ParamEndAnswers(n, prefix, path, last, ci, compile);
      } else {
        ChildWellFormed(n, prefix, 0, compile);
        SearchAnswers(n.children[0], prefix + n.path, path[e..], last, ci, compile);
        ParamLift(n, prefix, path, last, ci, compile);
      }
    }
  }

  // What the walker's tests at a parameter node come to.
  lemma WildIs(n: Tree, prefix: string, path: string, compile: Compiler)
    requires WellFormed(n, prefix, compile) && TokenKind(n)
    ensures WildLocal(n) && WildName(n) == TokenName(n.path)
    ensures var e := SegmentEnd(path); e > 0 && Accepts(n, path[..e]) <==> Takes(n.path, path[..e], compile)
  {
  }

  lemma LeafAnswers(n: Tree, prefix: string, path: string, last: bool, ci: bool, compile: Compiler)
    requires WellFormed(n, prefix, compile) && Walkable(n) && WildLocal(n) && n.nType == WildcardNode
    requires path != "" && path[0] == '/'
    ensures Answers(n, prefix, path, SearchWild(n, path, ci, last), ci, compile)
  {
    Cut(prefix, n.path);
    assert Uncons(n.path) == CatchAll(n.path);
    assert Captures(n.path, path) == [Param(n.path[2..], path)];
  }

  // The path ends in this parameter, or nothing follows it.
  lemma ParamEndAnswers(n: Tree, prefix: string, path: string, last: bool, ci: bool, compile: Compiler)
    requires WellFormed(n, prefix, compile) && Walkable(n) && TokenKind(n) && WildLocal(n) && path != ""
    requires !Takes(n.path, path[..SegmentEnd(path)], compile) || SegmentEnd(path) == |path| || n.children == []
    ensures Answers(n, prefix, path, SearchWild(n, path, ci, last), ci, compile)
  {
    WildIs(n, prefix, path, compile);
    hide WellFormed, HasRoute, Below, Search, Takes, Accepts, WildName;
    var e := SegmentEnd(path);
    if e == |path| && Takes(n.path, path[..e], compile) && n.route.Some? {
      Cut(prefix, n.path);
      assert path[..e] == path;
      ParamPattern(n, prefix, compile);
      ParamOwnBest(n, prefix, path, ci, compile);
    } else {
      ParamNoMatch(n, prefix, path, ci, compile);
    }
  }

  lemma ParamPattern(n: Tree, prefix: string, compile: Compiler)
    requires WellFormed(n, prefix, compile) && n.route.Some?
    ensures n.pattern == prefix + n.path
  {
  }

  lemma ParamLift(n: Tree, prefix: string, path: string, last: bool, ci: bool, compile: Compiler)
    requires WellFormed(n, prefix, compile) && Walkable(n) && TokenKind(n) && WildLocal(n) && path != ""
    requires Takes(n.path, path[..SegmentEnd(path)], compile) && SegmentEnd(path) < |path| && n.children != []
    requires Answers(n.children[0], prefix + n.path, path[SegmentEnd(path)..],
                     Search(n.children[0], path[SegmentEnd(path)..], ci, last), ci, compile)
    ensures Answers(n, prefix, path, SearchWild(n, path, ci, last), ci, compile)
  {
    WildIs(n, prefix, path, compile);
    hide WellFormed, HasRoute, Below, Search, Takes, Accepts, WildName, TokenName, Captures, Describes, Best, NoMatch;
    var e := SegmentEnd(path);
    var o := Search(n.children[0], path[e..], ci, last);
    assert SearchWild(n, path, ci, last) == Captured(Param(TokenName(n.path), path[..e]), o);
    hide SearchWild;
    if o.Hit? {
      ParamLiftHit(n, prefix, path, o, ci, compile);
    } else {
      ParamNoMatch(n, prefix, path, ci, compile);
    }
  }

  lemma ParamLiftHit(n: Tree, prefix: string, path: string, o: Outcome, ci: bool, compile: Compiler)
    requires WellFormed(n, prefix, compile) && TokenKind(n) && n.children != [] && o.Hit?
    requires var e := SegmentEnd(path);
             e < |path| && Takes(n.path, path[..e], compile) && Answers(n.children[0], prefix + n.path, path[e..], o, ci, compile)
    ensures Answers(n, prefix, path, Captured(Param(TokenName(n.path), path[..SegmentEnd(path)]), o), ci, compile)
  {
    var start, whole := prefix + n.path, o.found.pattern;
    var t := whole[|start|..];
    assert start <= whole && Best(n.children[0], path[SegmentEnd(path)..], t, o.found.handler, ci, compile);
    assert o.found.caps == Captures(t, path[SegmentEnd(path)..]);
    hide WellFormed, Takes, Best, Captures, TokenName;
    ParamDeeperBest(n, prefix, path, t, o.found.handler, ci, compile);
    ShiftedCut(prefix, n.path, whole);
  }

  lemma ShiftedCut(prefix: string, u: string, whole: string)
    requires prefix + u <= whole
    ensures prefix <= whole && whole[|prefix|..] == u + whole[|prefix + u|..]
  {
    var t := whole[|prefix + u|..];
    assert whole == prefix + u + t;
    Concat(prefix, u, t);
    Cut(prefix, u + t);
  }

  // The children a lookup goes on in.
  lemma StaticEntered(n: Tree, prefix: string, j: nat, rest: string, ci: bool, compile: Compiler)
    requires WellFormed(n, prefix, compile) && Walkable(n) && StaticKind(n) && j < |n.indices| && rest != ""
    requires FoldEq(rest[0], n.indices[j], ci)
    ensures j < |n.children| && StaticKind(n.children[j]) && (CatchAllParent(n.children[j]) ==> rest[0] == '/')
    ensures WellFormed(n.children[j], prefix + n.path, compile) && Walkable(n.children[j])
  {
    assert Local(n, prefix, compile);
    ChildWellFormed(n, prefix, j, compile);
  }

  lemma WildEntered(n: Tree, prefix: string, path: string, compile: Compiler)
    requires WellFormed(n, prefix, compile) && Walkable(n) && StaticKind(n) && n.wildChild && |path| > |n.path|
    requires CatchAllParent(n) ==> path[0] == '/'
    ensures n.children != [] && path[|n.path|..] != ""
    ensures Last(n.children).nType == WildcardNode ==> path[|n.path|..][0] == '/'
    ensures WellFormed(Last(n.children), prefix + n.path, compile) && Walkable(Last(n.children)) && WildLocal(Last(n.children))
  {
    assert Local(n, prefix, compile);
    ChildWellFormed(n, prefix, |n.children| - 1, compile);
    hide WildLocal;
  }

  lemma {:induction false} SearchAnswers(n: Tree, prefix: string, path: string, last: bool, ci: bool, compile: Compiler)
    requires WellFormed(n, prefix, compile) && Walkable(n) && StaticKind(n)
    requires OneWay(n, ci) && (CatchAllParent(n) ==> path == "" || path[0] == '/')
    ensures Answers(n, prefix, path, Search(n, path, ci, last), ci, compile)
    decreases n
  {
    if |path| > |n.path| && StartsWith(path, n.path, ci) {
      SearchBelow(n, prefix, path, last, ci, compile);
    } else if PrefixMatch(path, n.path, ci) && n.route.Some? {
      Cut(prefix, n.path);
      OwnRouteBest(n, prefix, path, ci, compile);
    } else {
      LiftNoMatch(n, prefix, path, ci, compile);
    }
  }

  lemma {:induction false} SearchBelow(n: Tree, prefix: string, path: string, last: bool, ci: bool, compile: Compiler)
    requires WellFormed(n, prefix, compile) && Walkable(n) && StaticKind(n) && |path| > |n.path| && StartsWith(path, n.path, ci)
    requires OneWay(n, ci) && (CatchAllParent(n) ==> path[0] == '/')
    ensures Answers(n, prefix, path, Search(n, path, ci, last), ci, compile)
    decreases n, 0
  {
    var rest := path[|n.path|..];
    var j := FindIndex(n.indices, rest[0], ci);
    assert forall k | 0 <= k < |n.children| :: OneWay(n.children[k], ci);
    hide *;
    if n.wildChild { WildEntered(n, prefix, path, compile); }
    if j >= 0 {
      StaticEntered(n, prefix, j, rest, ci, compile);
      SearchAnswers(n.children[j], prefix + n.path, rest, last, ci, compile);
      var o := Search(n.children[j], rest, ci, last);
      if o.Miss? && n.wildChild {
        WildAnswers(Last(n.children), prefix + n.path, rest, o.last, ci, compile);
      }
      StaticFirst(n, prefix, path, j, last, ci, compile);
    } else {
      if n.wildChild {
        WildAnswers(Last(n.children), prefix + n.path, rest, last, ci, compile);
      }
      NoStatic(n, prefix, path, last, ci, compile);
    }
  }

  // Some static child takes the next byte.
  lemma StaticFirst(n: Tree, prefix: string, path: string, j: nat, last: bool, ci: bool, compile: Compiler)
    requires WellFormed(n, prefix, compile) && Walkable(n) && StaticKind(n) && |path| > |n.path| && StartsWith(path, n.path, ci)
    requires FindIndex(n.indices, path[|n.path|], ci) == j && j < |n.indices| && OneWay(n, ci)
    requires var rest := path[|n.path|..];
             var o := Search(n.children[j], rest, ci, last);
             && Answers(n.children[j], prefix + n.path, rest, o, ci, compile)
             && (o.Miss? && n.wildChild ==>
                   Answers(Last(n.children), prefix + n.path, rest, SearchWild(Last(n.children), rest, ci, o.last), ci, compile))
    ensures Answers(n, prefix, path, Search(n, path, ci, last), ci, compile)
  {
    var rest := path[|n.path|..];
    var o := Search(n.children[j], rest, ci, last);
    SearchStatic(n, path, j, ci, last);
    hide WellFormed, HasRoute, Below, Search, SearchWild;
    if o.Hit? {
      StaticHit(n, prefix, rest, j, o.found.pattern[|prefix + n.path|..], o.found.handler, ci, compile);
      LiftAnswers(n, prefix, path, o, ci, compile);
    } else {
      UniqueIndex(n, rest[0], j, ci);
      if n.wildChild {
        var w := SearchWild(Last(n.children), rest, ci, o.last);
        WildDecides(n, prefix, rest, After(w, o.saw), ci, compile);
        LiftAnswers(n, prefix, path, After(w, o.saw), ci, compile);
      } else {
        NoChildMatches(n, prefix, rest, ci, compile);
        LiftAnswers(n, prefix, path, o, ci, compile);
      }
    }
  }

  lemma UniqueIndex(n: Tree, c: char, j: nat, ci: bool)
    requires OneWay(n, ci) && j < |n.indices| && FoldEq(c, n.indices[j], ci)
    ensures forall i | 0 <= i < |n.indices| && FoldEq(c, n.indices[i], ci) :: i == j
  {
  }

  // One step of Search, when the text matches and a static child takes over.
  lemma SearchStatic(n: Tree, path: string, j: nat, ci: bool, last: bool)
    requires Walkable(n) && |path| > |n.path| && StartsWith(path, n.path, ci)
    requires FindIndex(n.indices, path[|n.path|], ci) == j && j < |n.indices|
    ensures var rest := path[|n.path|..];
            var o := Search(n.children[j], rest, ci, last);
            Search(n, path, ci, last) ==
            if o.Miss? && n.wildChild then After(SearchWild(Last(n.children), rest, ci, o.last), o.saw) else o
  {
  }

  // No static child does.
  lemma NoStatic(n: Tree, prefix: string, path: string, last: bool, ci: bool, compile: Compiler)
    requires WellFormed(n, prefix, compile) && Walkable(n) && StaticKind(n) && |path| > |n.path| && StartsWith(path, n.path, ci)
    requires FindIndex(n.indices, path[|n.path|], ci) < 0
    requires n.wildChild ==>
               var rest := path[|n.path|..];
               Answers(Last(n.children), prefix + n.path, rest, SearchWild(Last(n.children), rest, ci, last), ci, compile)
    ensures Answers(n, prefix, path, Search(n, path, ci, last), ci, compile)
  {
    var rest := path[|n.path|..];
    SearchNoStatic(n, path, ci, last);
    hide WellFormed, HasRoute, Below, Search, SearchWild;
    if n.wildChild {
      var w := SearchWild(Last(n.children), rest, ci, last);
      WildDecides(n, prefix, rest, w, ci, compile);
      LiftAnswers(n, prefix, path, w, ci, compile);
    } else {
      NoChildMatches(n, prefix, rest, ci, compile);
      LiftNoMatch(n, prefix, path, ci, compile);
    }
  }

  lemma SearchNoStatic(n: Tree, path: string, ci: bool, last: bool)
    requires Walkable(n) && |path| > |n.path| && StartsWith(path, n.path, ci)
    requires FindIndex(n.indices, path[|n.path|], ci) < 0
    ensures var rest := path[|n.path|..];
            Search(n, path, ci, last) ==
            if n.wildChild then SearchWild(Last(n.children), rest, ci, last) else Fail(rest == "/" && n.route.Some?)
  {
  }
}
