// What a tree stands for: the set of registered (pattern, handler) pairs, and
// the invariant that makes it a radix tree for that set.
module RouteSet {
  import opened Wrappers
  import opened Patterns
  import opened RouteTree

  // `s` is a pattern, relative to `n` and including `n`'s own text, registered
  // with handler `h` at or below `n`.
  ghost predicate HasRoute(n: Tree, s: string, h: Handler)
    decreases n, 1
  {
    || (s == n.path && n.route == Some(h))
    || (n.path <= s && Below(n, s[|n.path|..], h))
  }

  ghost predicate Below(n: Tree, s: string, h: Handler)
    decreases n, 0
  {
    exists j :: 0 <= j < |n.children| && HasRoute(n.children[j], s, h)
  }

  // ---- The invariant ----

  // First byte of every pattern at or below a static node.
  function First(n: Tree): char {
    if n.path == "" then '/' else n.path[0]
  }

  // The node above a catch-all leaf.
  predicate CatchAllParent(n: Tree) {
    n.path == "" && n.route.None? && n.indices == "" && n.wildChild && |n.children| == 1 && n.children[0].nType == WildcardNode
  }

  // The node left without text when a catch-all follows its parent directly.
  predicate CatchAllPrefix(n: Tree) {
    n.path == "" && n.route.None? && n.indices == "/" && !n.wildChild && |n.children| == 1 && CatchAllParent(n.children[0])
  }

  predicate StaticLocal(n: Tree) {
    && Plain(n.path)
    && |n.children| == |n.indices| + (if n.wildChild then 1 else 0)
    && (forall i, j | 0 <= i < j < |n.indices| :: n.indices[i] != n.indices[j])
    && (forall j | 0 <= j < |n.indices| ::
          !IsMark(n.indices[j]) && n.children[j].nType == StaticNode && First(n.children[j]) == n.indices[j])
    && (n.wildChild ==> TokenKind(Last(n.children)) || CatchAllParent(n))
    && (n.path == "" ==> CatchAllParent(n) || CatchAllPrefix(n))
  }

  // A node for a whole segment, named or by regular expression. A single child
  // without an index is what the first suffix of a regular expression leaves,
  // a second child what the next one does.
  ghost predicate ParamLocal(n: Tree, compile: Compiler) {
    && ParamToken(n.path, compile) && (n.nType == ParamNode <==> n.path[0] == ':')
    && (n.nType == RegexNode ==> n.regexp == compile(TokenExpr(n.path)) && n.nameEnd == NameEnd(n.path))
    && !n.wildChild && |n.indices| <= |n.children|
    && (|n.children| <= 1 || (|n.children| == 2 && n.indices == "/" && Spare(n, 1)))
    && (n.indices == "" || n.indices == "/")
    && (n.children != [] ==> n.children[0].nType == StaticNode && First(n.children[0]) == '/')
  }

  // A child nothing is ever registered in, and no walker enters.
  ghost predicate Spare(n: Tree, j: nat)
    requires j < |n.children|
  {
    n.nType == RegexNode && j == 1 && n.children[j] == EMPTY_TREE
  }

  predicate ParamToken(token: string, compile: Compiler) { GoodToken(token, compile) && '/' !in token }

  predicate TokenKind(n: Tree) { n.nType == ParamNode || n.nType == RegexNode }

  predicate IsParamMark(c: char) { c == ':' || c == '{' }

  // The node a token gets.
  function TokenNode(token: string, compile: Compiler): Tree
    requires ParamToken(token, compile)
  {
    if token[0] == ':' then EMPTY_TREE.(nType := ParamNode, path := token)
    else EMPTY_TREE.(nType := RegexNode, path := token, regexp := compile(TokenExpr(token)), nameEnd := NameEnd(token))
  }

  // The next registration below `n` would take over the child for its suffix.
  predicate Stuck(n: Tree, rest: string) {
    n.nType == RegexNode && n.indices == "" && n.children != [] && rest != "" && !IsMark(rest[0])
  }

  // The walk of a registration comes to such a node.
  predicate SecondSuffix(n: Tree, path: string)
    requires Shape(n)
    decreases Weight(n), 1
  {
    var i := CommonPrefix(path, n.path);
    i == |n.path| && i < |path| && SecondBelow(n, path[i..])
  }

  predicate SecondBelow(n: Tree, rest: string)
    requires Shape(n) && rest != ""
    decreases Weight(n), 0
  {
    Stuck(n, rest) || (Chosen(n, rest) >= 0 && SecondSuffix(Entered(n, Chosen(n, rest)), rest))
  }

  predicate LeafLocal(n: Tree) {
    3 <= |n.path| && n.path[..2] == "/*" && CleanName(n.path[2..]) && n.children == [] && !n.wildChild && n.indices == ""
  }

  ghost predicate Local(n: Tree, prefix: string, compile: Compiler) {
    && n.pattern == (if n.route.Some? then prefix + n.path else "")
    && (n.children == [] ==> n.route.Some?)
    && match n.nType
       case StaticNode | RootNode => StaticLocal(n)
       case ParamNode | RegexNode => ParamLocal(n, compile)
       case WildcardNode => LeafLocal(n)
  }

  // A well-formed tree whose ancestors' texts spell `prefix`.
  ghost predicate WellFormed(n: Tree, prefix: string, compile: Compiler)
    decreases n
  {
    Local(n, prefix, compile) && forall j | 0 <= j < |n.children| && !Spare(n, j) :: WellFormed(n.children[j], prefix + n.path, compile)
  }

  ghost predicate Fresh(n: Tree) { n == EMPTY_TREE.(priority := n.priority) }

  // A method's tree: nothing registered yet, or well formed from '/'.
  ghost predicate RootOk(n: Tree, compile: Compiler) {
    Fresh(n) || (WellFormed(n, "", compile) && StaticKind(n) && First(n) == '/' && !CatchAllParent(n))
  }

  predicate StaticKind(n: Tree) { n.nType == StaticNode || n.nType == RootNode }

  lemma {:induction false} WellFormedShape(n: Tree, prefix: string, compile: Compiler)
    requires WellFormed(n, prefix, compile)
    ensures Shape(n)
    decreases n
  {
    forall j | 0 <= j < |n.children| ensures Shape(n.children[j]) {
      if !Spare(n, j) { WellFormedShape(n.children[j], prefix + n.path, compile); }
    }
  }

  // ---- Routes of a well-formed tree ----

  lemma {:induction false} SomeRoute(n: Tree, prefix: string, compile: Compiler) returns (s: string, h: Handler)
    requires WellFormed(n, prefix, compile)
    ensures HasRoute(n, s, h)
    decreases n
  {
    if n.route.Some? {
      s, h := n.path, n.route.value;
    } else {
      var t;
      t, h := SomeRoute(n.children[0], prefix + n.path, compile);
      s := n.path + t;
      assert s[|n.path|..] == t;
    }
  }

  // First bytes of a route, by the kind of its top node.
  predicate Begins(n: Tree, s: string) {
    && n.path <= s && s != "" && s[0] != '*'
    && (StaticKind(n) ==> s[0] == First(n))
    && (TokenKind(n) ==> Uncons(s).Named? && (|s| == |n.path| || s[|n.path|] == '/'))
    && (n.nType == WildcardNode ==> s == n.path && |s| >= 2 && s[..2] == "/*")
  }

  lemma OwnBegins(n: Tree, prefix: string, compile: Compiler)
    requires Local(n, prefix, compile) && n.route.Some?
    ensures Begins(n, n.path)
  {
    if TokenKind(n) {
      assert n.path + "" == n.path;
      UnconsToken(n.path, "");
    }
  }

  lemma ChildBegins(n: Tree, prefix: string, j: nat, t: string, s: string, compile: Compiler)
    requires Local(n, prefix, compile) && j < |n.children| && Begins(n.children[j], t)
    requires n.path <= s && t == s[|n.path|..]
    ensures Begins(n, s)
  {
    if TokenKind(n) {
      assert IsToken(n.path) && '/' !in n.path && t != "" && t[0] == '/';
      hide *;
      TokenBegins(n, t, s);
    } else {
      hide GoodToken, Uncons, IsToken;
      assert n.path == "" ==> s == t;
    }
  }

  lemma TokenBegins(n: Tree, t: string, s: string)
    requires TokenKind(n) && IsToken(n.path) && '/' !in n.path && t != "" && t[0] == '/'
    requires n.path <= s && t == s[|n.path|..]
    ensures Begins(n, s)
  {
    assert s[|n.path|] == t[0] && s == n.path + t;
    UnconsToken(n.path, t);
  }

  lemma {:induction false} RouteBegins(n: Tree, prefix: string, s: string, h: Handler, compile: Compiler)
    requires WellFormed(n, prefix, compile) && HasRoute(n, s, h)
    ensures Begins(n, s)
    decreases n
  {
    if s == n.path && n.route == Some(h) {
      OwnBegins(n, prefix, compile);
    } else {
      var t := s[|n.path|..];
      var j :| 0 <= j < |n.children| && HasRoute(n.children[j], t, h);
      RouteBegins(n.children[j], prefix + n.path, t, h, compile);
      ChildBegins(n, prefix, j, t, s, compile);
    }
  }

  predicate OwnsByte(n: Tree, j: nat, s: string)
    requires j < |n.children|
  {
    && s != "" && s[0] != '*'
    && (TokenKind(n) ==> j == 0 && s[0] == '/')
    && (StaticKind(n) ==>
          if j < |n.indices| then s[0] == n.indices[j]
          else if TokenKind(n.children[j]) then Uncons(s).Named?
          else CatchAllParent(n) && |s| >= 2 && s[..2] == "/*")
  }

  lemma BeginsOwns(n: Tree, prefix: string, j: nat, s: string, compile: Compiler)
    requires Local(n, prefix, compile) && j < |n.children| && !Spare(n, j) && Begins(n.children[j], s)
    ensures OwnsByte(n, j, s)
  {
  }

  // A route below `n` belongs to the child its next byte names.
  lemma RouteChild(n: Tree, prefix: string, s: string, h: Handler, compile: Compiler) returns (j: nat)
    requires WellFormed(n, prefix, compile) && Below(n, s, h)
    ensures j < |n.children| && HasRoute(n.children[j], s, h) && OwnsByte(n, j, s)
  {
    j :| 0 <= j < |n.children| && HasRoute(n.children[j], s, h);
    RouteBegins(n.children[j], prefix + n.path, s, h, compile);
    BeginsOwns(n, prefix, j, s, compile);
  }

  // ---- Common text in front of two patterns ----

  predicate NoStar(s: string) { s == "" || s[0] != '*' }

  lemma {:induction false} UnconsPlain(u: string, s: string)
    requires Plain(u) && u != "" && (NoStar(s) || |u| > 1 || u[0] != '/')
    ensures Uncons(u + s) == Literal(u[0], u[1..] + s)
  {
    assert (u + s)[1..] == u[1..] + s;
  }

  lemma {:induction false} PlainConflict(u: string, s: string, t: string)
    requires Plain(u) && NoStar(s) && NoStar(t)
    ensures Conflict(u + s, u + t) == Conflict(s, t)
    decreases |u|
  {
    if u == "" {
      assert u + s == s && u + t == t;
    } else {
      UnconsPlain(u, s);
      UnconsPlain(u, t);
      PlainConflict(u[1..], s, t);
    }
  }

  lemma {:induction false} PlainValid(u: string, s: string, compile: Compiler)
    requires Plain(u) && NoStar(s)
    ensures Valid(u + s, compile) == Valid(s, compile)
    decreases |u|
  {
    if u == "" {
      assert u + s == s;
    } else {
      UnconsPlain(u, s);
      PlainValid(u[1..], s, compile);
    }
  }

  // A catch-all right after `u`, which the other pattern also goes through.
  lemma {:induction false} StarConflict(u: string, s: string, t: string)
    requires Plain(u) && u != "" && Last(u) == '/' && NoStar(s) && t != "" && t[0] == '*'
    ensures Conflict(u + s, u + t)
    decreases |u|
  {
    UnconsPlain(u, s);
    if |u| > 1 {
      UnconsPlain(u, t);
      StarConflict(u[1..], s, t);
    }
  }

  lemma {:induction false} StarInvalid(u: string, t: string, compile: Compiler)
    requires Plain(u) && (u == "" || Last(u) != '/') && t != "" && t[0] == '*'
    ensures !Valid(u + t, compile)
    decreases |u|
  {
    hide GoodToken;
    if u == "" {
      assert u + t == t && Uncons(t) == Literal('*', t[1..]);
    } else {
      UnconsPlain(u, t);
      StarInvalid(u[1..], t, compile);
    }
  }

  // `token` is the parameter a pattern starts with.
  lemma UnconsToken(token: string, rest: string)
    requires IsToken(token) && '/' !in token
    requires rest == "" || rest[0] == '/'
    ensures Uncons(token + rest) == Named(token, rest)
  {
    SegmentEndIs(token + rest, |token|);
    assert (token + rest)[..|token|] == token && (token + rest)[|token|..] == rest;
  }

  lemma {:induction false} PlainTidy(u: string, s: string)
    requires Plain(u)
    ensures Tidy(u + s) == Tidy(s)
    decreases |u|
  {
    if u == "" {
      assert u + s == s;
    } else if NoStar(s) || |u| > 1 || u[0] != '/' {
      UnconsPlain(u, s);
      PlainTidy(u[1..], s);
    } else {
      assert (u + s)[1] == s[0];
      assert !IsToken((u + s)[..SegmentEnd(u + s)]);
      StarTidy(s);
    }
  }

  lemma StarTidy(s: string)
    requires s != "" && s[0] == '*'
    ensures Tidy(s)
  {
    assert Uncons(s).Literal?;
  }
}
