// What the trailing-slash flag of a failed lookup means while no pattern has a
// wildcard: exactly which registered paths set it.
module StaticHints {
  import opened Wrappers
  import opened Patterns
  import opened RouteTree
  import opened RouteSet
  import opened TreeInsert
  import opened TreeLookup
  import opened Registration
  import opened OrderIndependence

  // ---- In terms of the paths registered ----

  predicate Ends(path: string) { path != "" && path[|path| - 1] == '/' }

  function Cutting(path: string): string
    requires path != ""
  {
    path[..|path| - 1]
  }

  // Some path goes on from `p`, or is `p`.
  ghost predicate GoesOn(rs: iset<string>, p: string) { exists s :: s in rs && p <= s }

  // Paths part at `p`: one ends there, or two go on differently.
  ghost predicate Part(rs: iset<string>, p: string) {
    p == "" || p in rs || exists s, t :: s in rs && t in rs && p < s && p < t && s[|p|] != t[|p|]
  }

  // The hint is given if the path with one slash more is registered, or if the
  // path ends in a slash and the path without is registered and nothing goes on
  // from it; if something does, what counts is where paths part, and that can
  // be wrong either way.
  ghost predicate Hint(rs: iset<string>, path: string) {
    || path + "/" in rs
    || (Ends(path) &&
        if GoesOn(rs, path) then Part(rs, Cutting(path)) && !(Part(rs, path) && GoesOn(rs, path + "/"))
        else Cutting(path) in rs)
  }

  // ---- In terms of a tree ----

  ghost predicate HasPath(n: Tree, s: string) { exists x :: HasRoute(n, s, x) }

  ghost function RoutesOf(n: Tree): iset<string> { iset s | HasPath(n, s) }

  // A tree of static nodes; one that holds no route holds two branches.
  predicate Bushy(n: Tree)
    decreases n
  {
    && StaticKind(n) && n.path != "" && !n.wildChild && |n.children| == |n.indices|
    && (n.route.Some? || |n.children| >= 2)
    && forall j | 0 <= j < |n.children| :: Bushy(n.children[j])
  }

  // The routes are the node's own and those of its children, behind its text.
  lemma BelowRoute(n: Tree, prefix: string, t: string, compile: Compiler)
    requires WellFormed(n, prefix, compile) && Bushy(n) && t != ""
    ensures var j := IndexOf(n.indices, t[0]);
            n.path + t in RoutesOf(n) <==> j >= 0 && t in RoutesOf(n.children[j])
  {
    var j := IndexOf(n.indices, t[0]);
    if x :| HasRoute(n, n.path + t, x) { RouteGoesDown(n, prefix, t, x, compile); }
    if j >= 0 && t in RoutesOf(n.children[j]) {
      var x :| HasRoute(n.children[j], t, x);
      RouteComesUp(n, j, t, x);
    }
    hide HasRoute, WellFormed;
  }

  lemma RouteGoesDown(n: Tree, prefix: string, t: string, x: Handler, compile: Compiler)
    requires WellFormed(n, prefix, compile) && Bushy(n) && t != "" && HasRoute(n, n.path + t, x)
    ensures var j := IndexOf(n.indices, t[0]); j >= 0 && HasRoute(n.children[j], t, x)
  {
    Cut(n.path, t);
    assert Below(n, t, x);
    var k := RouteChild(n, prefix, t, x, compile);
    assert Local(n, prefix, compile) && n.indices[k] == t[0];
    hide HasRoute, WellFormed;
    assert IndexOf(n.indices, t[0]) == k;
  }

  lemma RouteComesUp(n: Tree, j: nat, t: string, x: Handler)
    requires j < |n.children| && HasRoute(n.children[j], t, x)
    ensures HasRoute(n, n.path + t, x)
  {
    Cut(n.path, t);
    assert Below(n, t, x);
  }

  lemma OwnRoute(n: Tree, prefix: string, compile: Compiler)
    requires WellFormed(n, prefix, compile) && Bushy(n)
    ensures n.path in RoutesOf(n) <==> n.route.Some?
    ensures forall s | s in RoutesOf(n) :: n.path <= s
  {
    if n.route.Some? { assert HasRoute(n, n.path, n.route.value); }
    if x :| HasRoute(n, n.path, x) {
      assert n.path[|n.path|..] == "";
      if Below(n, "", x) { var k := RouteChild(n, prefix, "", x, compile); }
    }
    forall s | s in RoutesOf(n) ensures n.path <= s {
      var x :| HasRoute(n, s, x);
    }
  }

  // Below an index there is a route.
  lemma IndexHolds(n: Tree, prefix: string, j: nat, compile: Compiler) returns (t: string)
    requires WellFormed(n, prefix, compile) && Bushy(n) && j < |n.indices|
    ensures t != "" && t[0] == n.indices[j] && n.path + t in RoutesOf(n)
  {
    var x;
    t, x := SomeRoute(n.children[j], prefix + n.path, compile);
    ChildRouteOwns(n, prefix, j, t, x, compile);
    Cut(n.path, t);
    assert Below(n, t, x) && HasRoute(n, n.path + t, x);
  }

  // Paths part where a node ends, and nowhere in its text.
  lemma PartAtEnd(n: Tree, prefix: string, compile: Compiler)
    requires WellFormed(n, prefix, compile) && Bushy(n)
    ensures Part(RoutesOf(n), n.path)
  {
    OwnRoute(n, prefix, compile);
    if n.route.None? {
      var s := IndexHolds(n, prefix, 0, compile);
      var t := IndexHolds(n, prefix, 1, compile);
      assert n.indices[0] != n.indices[1] by { assert Local(n, prefix, compile); }
      hide *;
      Cut(n.path, s);
      Cut(n.path, t);
      PartsThere(RoutesOf(n), n.path, s, t);
    }
  }

  lemma PartsThere(rs: iset<string>, u: string, s: string, t: string)
    requires s != "" && t != "" && s[0] != t[0] && u + s in rs && u + t in rs
    ensures Part(rs, u)
  {
    var a, b := u + s, u + t;
    assert u < a && u < b && a[|u|] != b[|u|];
  }

  lemma NoPartInside(rs: iset<string>, u: string, p: string)
    requires (forall s | s in rs :: u <= s) && p < u
    ensures Part(rs, p) <==> p == ""
  {
    assert forall s | s in rs :: s[|p|] == u[|p|];
  }

  // ---- One node ----

  // The path leaves the node's text.
  lemma OutsideHint(n: Tree, prefix: string, path: string, compile: Compiler)
    requires WellFormed(n, prefix, compile) && Bushy(n) && |path| > |n.path| && !(n.path <= path)
    ensures !Hint(RoutesOf(n), path)
  {
    OwnRoute(n, prefix, compile);
    var rs := RoutesOf(n);
    hide RoutesOf;
    assert forall s | s in rs :: !(path <= s) && s != path + "/" && s != Cutting(path);
  }

  // The path ends at the node, which holds no route.
  lemma EndHint(n: Tree, prefix: string, compile: Compiler)
    requires WellFormed(n, prefix, compile) && Bushy(n) && n.route.None?
    ensures SlashHint(n, n.path) <==> Hint(RoutesOf(n), n.path)
  {
    OwnRoute(n, prefix, compile);
    BelowRoute(n, prefix, "/", compile);
    PartAtEnd(n, prefix, compile);
    var rs, j := RoutesOf(n), IndexOf(n.indices, '/');
    NoPartInside(rs, n.path, Cutting(n.path));
    var t := IndexHolds(n, prefix, 0, compile);
    Cut(n.path, t);
    assert n.path <= n.path + t && GoesOn(rs, n.path);
    if j >= 0 {
      SlashChild(n, prefix, j, compile);
      var more := IndexHolds(n, prefix, j, compile);
      SlashFirst(n.path, more);
      assert GoesOn(rs, n.path + "/");
    } else {
      NothingBehind(n, prefix, '/', compile);
      assert Cutting(n.path) == "" <==> |n.path| == 1;
    }
  }

  lemma SlashFirst(u: string, t: string)
    requires t != "" && t[0] == '/'
    ensures u + "/" <= u + t
  {
  }

  // A child without the index of a byte means no route goes on with it.
  lemma NothingBehind(n: Tree, prefix: string, b: char, compile: Compiler)
    requires WellFormed(n, prefix, compile) && Bushy(n) && IndexOf(n.indices, b) < 0
    ensures !GoesOn(RoutesOf(n), n.path + [b])
  {
    OwnRoute(n, prefix, compile);
    forall s | s in RoutesOf(n) ensures !(n.path + [b] <= s) {
      if n.path + [b] <= s {
        var t := s[|n.path|..];
        assert s == n.path + t && t[0] == b;
        BelowRoute(n, prefix, t, compile);
      }
    }
  }

  lemma SlashChild(n: Tree, prefix: string, j: nat, compile: Compiler)
    requires WellFormed(n, prefix, compile) && Bushy(n) && j < |n.children| && j < |n.indices| && n.indices[j] == '/'
    ensures "/" in RoutesOf(n.children[j]) <==> n.children[j].path == "/" && n.children[j].route.Some?
    ensures !n.children[j].wildChild
  {
    var c := n.children[j];
    ChildWellFormed(n, prefix, j, compile);
    OwnRoute(c, prefix + n.path, compile);
    if "/" in RoutesOf(c) { assert c.path == "/"; }
  }

  // The path ends inside the node's text.
  lemma InsideHint(n: Tree, prefix: string, path: string, compile: Compiler)
    requires WellFormed(n, prefix, compile) && Bushy(n) && path != "" && path < n.path
    ensures ShortHint(n, path, false) <==> Hint(RoutesOf(n), path)
  {
    OwnRoute(n, prefix, compile);
    var rs := RoutesOf(n);
    var s, x := SomeRoute(n, prefix, compile);
    assert s in rs && path <= s && GoesOn(rs, path);
    NoPartInside(rs, n.path, path);
    NoPartInside(rs, n.path, Cutting(path));
    assert path + "/" in rs ==> n.path <= path + "/" && n.path == path + "/";
    assert n.path[..|path|] == path;
    hide RoutesOf;
    assert |n.path| == |path| + 1 && n.path[|path|] == '/' ==> n.path == path + "/";
    assert Cutting(path) == "" && Ends(path) <==> path == "/";
  }

  // The path goes on behind the node, where no child takes it.
  lemma BehindHint(n: Tree, prefix: string, rest: string, compile: Compiler)
    requires WellFormed(n, prefix, compile) && Bushy(n) && rest != "" && IndexOf(n.indices, rest[0]) < 0
    ensures Hint(RoutesOf(n), n.path + rest) <==> rest == "/" && n.route.Some?
  {
    OwnRoute(n, prefix, compile);
    NothingBehind(n, prefix, rest[0], compile);
    var rs, path := RoutesOf(n), n.path + rest;
    assert [rest[0]] + rest[1..] == rest && n.path + [rest[0]] <= path;
    hide RoutesOf;
    assert !GoesOn(rs, path) && path + "/" !in rs by {
      assert forall s | s in rs :: !(n.path + [rest[0]] <= s);
    }
    if |rest| == 1 {
      assert Cutting(path) == n.path;
    } else {
      assert n.path + [rest[0]] <= Cutting(path);
    }
  }

  // ---- From a child to the node ----

  // `ss` is what `rs` holds behind `u`, going on with the byte `b`.
  ghost predicate Behind(rs: iset<string>, u: string, ss: iset<string>, b: char) {
    && (forall t | t != "" && t[0] == b :: u + t in rs <==> t in ss)
    && (forall t | t in ss :: t != "" && t[0] == b) && (exists t :: t in ss) && (forall s | s in rs :: u <= s)
  }

  lemma GoesOnBehind(rs: iset<string>, u: string, ss: iset<string>, b: char, p: string)
    requires Behind(rs, u, ss, b) && p != "" && p[0] == b
    ensures GoesOn(rs, u + p) <==> GoesOn(ss, p)
  {
    if s :| s in rs && u + p <= s {
      var t := s[|u|..];
      assert s == u + t && p <= t && t[0] == b;
      assert t in ss;
    }
    if t :| t in ss && p <= t {
      assert u + t in rs && u + p <= u + t;
    }
  }

  lemma TailOf(u: string, p: string, s: string) returns (t: string)
    requires u + p < s
    ensures s == u + t && p < t && s[|u + p|] == t[|p|]
  {
    t := s[|u|..];
  }

  lemma PartBehind(rs: iset<string>, u: string, ss: iset<string>, b: char, p: string)
    requires Behind(rs, u, ss, b) && p != "" && p[0] == b
    ensures Part(rs, u + p) <==> Part(ss, p)
  {
    if s, t :| s in rs && t in rs && u + p < s && u + p < t && s[|u + p|] != t[|u + p|] {
      var x := TailOf(u, p, s);
      var y := TailOf(u, p, t);
      assert x[0] == b && y[0] == b;
      assert x in ss && y in ss;
    }
    if x, y :| x in ss && y in ss && p < x && p < y && x[|p|] != y[|p|] {
      var s, t := u + x, u + y;
      assert s in rs && t in rs && u + p < s && u + p < t && s[|u + p|] == x[|p|] && t[|u + p|] == y[|p|];
    }
    assert (u + p in rs) == (p in ss);
  }

  lemma HintBehind(rs: iset<string>, u: string, ss: iset<string>, rest: string)
    requires rest != "" && Behind(rs, u, ss, rest[0]) && Part(rs, u)
    ensures Hint(rs, u + rest) <==> Hint(ss, rest)
  {
    var path, b := u + rest, rest[0];
    Concat(u, rest, "/");
    assert (path + "/" in rs) == (rest + "/" in ss);
    assert Cutting(path) == u + Cutting(rest) && path[|path| - 1] == rest[|rest| - 1];
    GoesOnBehind(rs, u, ss, b, rest);
    GoesOnBehind(rs, u, ss, b, rest + "/");
    PartBehind(rs, u, ss, b, rest);
    if |rest| == 1 {
      assert Cutting(rest) == "" && u + "" == u;
      var t :| t in ss;
      assert rest <= t;
    } else {
      assert Cutting(rest)[0] == b;
      PartBehind(rs, u, ss, b, Cutting(rest));
      assert (u + Cutting(rest) in rs) == (Cutting(rest) in ss);
    }
    hide Behind, GoesOn, Part;
  }

  lemma ChildBehind(n: Tree, prefix: string, j: nat, compile: Compiler)
    requires WellFormed(n, prefix, compile) && Bushy(n) && j < |n.indices| && j == IndexOf(n.indices, n.indices[j])
    ensures Behind(RoutesOf(n), n.path, RoutesOf(n.children[j]), n.indices[j])
  {
    var c, b := n.children[j], n.indices[j];
    OwnRoute(n, prefix, compile);
    ChildWellFormed(n, prefix, j, compile);
    var s, x := SomeRoute(c, prefix + n.path, compile);
    assert s in RoutesOf(c);
    forall t | t != "" && t[0] == b ensures n.path + t in RoutesOf(n) <==> t in RoutesOf(c) {
      BelowRoute(n, prefix, t, compile);
    }
    forall t | t in RoutesOf(c) ensures t != "" && t[0] == b {
      var y :| HasRoute(c, t, y);
      ChildRouteOwns(n, prefix, j, t, y, compile);
    }
  }

  // ---- The search ----

  // A failed search of such a tree gives the hint the routes call for.
  lemma {:induction false} SearchHint(n: Tree, prefix: string, path: string, compile: Compiler)
    requires WellFormed(n, prefix, compile) && Walkable(n) && Bushy(n) && path != "" && path[0] == First(n)
    ensures var o := Search(n, path, false, false);
            o.Miss? ==> o.last == o.saw && (o.saw <==> Hint(RoutesOf(n), path))
    decreases n
  {
    if |path| > |n.path| {
      if PrefixMatch(path[..|n.path|], n.path, false) {
        var rest := path[|n.path|..];
        assert path == n.path + rest by { assert path[..|n.path|] == n.path; }
        IndexFound(n.indices, rest[0]);
        var j := FindIndex(n.indices, rest[0], false);
        if j >= 0 {
          ChildWellFormed(n, prefix, j, compile);
          assert First(n.children[j]) == rest[0] by { assert Local(n, prefix, compile); }
          SearchHint(n.children[j], prefix + n.path, rest, compile);
          ChildBehind(n, prefix, j, compile);
          PartAtEnd(n, prefix, compile);
          HintBehind(RoutesOf(n), n.path, RoutesOf(n.children[j]), rest);
        } else {
          BehindHint(n, prefix, rest, compile);
        }
      } else {
        OutsideHint(n, prefix, path, compile);
      }
    } else if path == n.path {
      if n.route.None? { EndHint(n, prefix, compile); }
    } else {
      ShortSearch(n, prefix, path, compile);
    }
  }

  lemma IndexFound(indices: string, b: char)
    ensures FindIndex(indices, b, false) == IndexOf(indices, b)
  {
  }

  lemma ShortSearch(n: Tree, prefix: string, path: string, compile: Compiler)
    requires WellFormed(n, prefix, compile) && Walkable(n) && Bushy(n) && path != "" && path[0] == First(n)
    requires |path| <= |n.path| && path != n.path
    ensures Search(n, path, false, false) == Fail(ShortHint(n, path, false))
    ensures ShortHint(n, path, false) <==> Hint(RoutesOf(n), path)
  {
    if path < n.path {
      InsideHint(n, prefix, path, compile);
    } else {
      OwnRoute(n, prefix, compile);
      OffHint(RoutesOf(n), n.path, path);
    }
  }

  lemma OffHint(rs: iset<string>, u: string, path: string)
    requires (forall s | s in rs :: u <= s) && path != "" && |path| <= |u| && !(path <= u)
    ensures !Hint(rs, path)
  {
    assert forall s | s in rs :: !(path <= s) && s != path + "/" && s != Cutting(path);
  }

  // ---- Registrations without wildcards leave such a tree ----

  lemma PlainInsert(n: Tree, path: string, full: string, h: Handler, compile: Compiler)
    requires Plain(path)
    ensures InsertChild(n, path, full, h, compile) == Ok(SetRoute(n.(path := path), full, h))
  {
  }

  lemma BushyBumped(n: Tree)
    requires Bushy(n)
    ensures Bushy(Bumped(n))
  {
  }

  lemma MovedBushy(n: Tree, j: nat, np: nat)
    requires Bushy(n) && np <= j < |n.indices|
    ensures Bushy(Reordered(n, j, np))
  {
    var r := Reordered(n, j, np);
    forall k | 0 <= k < |r.children| ensures Bushy(r.children[k]) {
      assert r.children[k] == n.children[MovedFrom(j, np, k)];
    }
  }

  // Child `j` becomes `t`.
  lemma ReplacedBushy(n: Tree, j: nat, t: Tree)
    requires Bushy(n) && j < |n.indices| && Bushy(t)
    ensures var r := Rejoin(n, j, true, Ok(t)); r.Ok? && Bushy(r.value)
  {
    var m := n.(children := n.children[j := t]);
    assert Bushy(m);
    hide *;
    RejoinIsReordered(n, j, t);
    MovedBushy(m, j, NewPos(n, j));
  }

  // What a node is before its last branch is added.
  predicate Sprouting(n: Tree) {
    && StaticKind(n) && n.path != "" && !n.wildChild && |n.children| == |n.indices| && (n.route.Some? || n.children != [])
    && forall j | 0 <= j < |n.children| :: Bushy(n.children[j])
  }

  lemma BranchBushy(n: Tree, prefix: string, rest: string, full: string, h: Handler, compile: Compiler)
    requires Local(n, prefix, compile) && Sprouting(n) && rest != "" && Plain(rest) && rest[0] !in n.indices
    ensures var r := AddStatic(n, rest, full, h, compile); r.Ok? && Bushy(r.value)
  {
    assert Addable(n, rest[0]);
    var j, e := |n.indices|, Bumped(EMPTY_TREE);
    var np := AddStaticResult(n, prefix, rest, full, h, compile);
    PlainInsert(e, rest, full, h, compile);
    var c := SetRoute(e.(path := rest), full, h);
    hide Local, AddStatic, InsertChild;
    WithStaticBushy(n, rest[0], c);
    MovedBushy(WithStatic(n, rest[0], c), j, np);
  }

  lemma WithStaticBushy(n: Tree, b: char, c: Tree)
    requires Sprouting(n) && Bushy(c)
    ensures Bushy(WithStatic(n, b, c))
  {
    InsertedAt(n.children, |n.indices|, c);
  }

  lemma SplitSprouts(n: Tree, i: nat)
    requires Bushy(n) && 0 < i < |n.path|
    ensures Sprouting(SplitAt(n, i)) && SplitAt(n, i).indices == [n.path[i]]
  {
    var c := SplitAt(n, i).children[0];
    assert c.children == n.children && c.indices == n.indices && c.route == n.route;
  }

  lemma {:induction false} WalkBushy(n: Tree, prefix: string, path: string, full: string, h: Handler, compile: Compiler)
    requires WellFormed(n, prefix, compile) && Shape(n) && Bushy(n) && Plain(path) && path != "" && path[0] == First(n)
    ensures var r := AddWalk(n, path, full, h, compile); r.Ok? ==> Bushy(r.value)
    decreases Size(n)
  {
    var i := CommonPrefix(path, n.path);
    if i < |n.path| {
      SplitBushy(n, prefix, path, full, h, compile);
    } else if i < |path| {
      var rest := path[i..];
      assert rest[0] == path[i] && Plain(rest);
      WalkIsBelow(n, path, full, h, compile);
      var j := IndexOf(n.indices, rest[0]);
      if j >= 0 {
        assert Chosen(n, rest) == j && Moves(n, rest);
        ChildWellFormed(n, prefix, j, compile);
        BumpedSame(n.children[j], prefix + n.path, compile);
        BushyBumped(n.children[j]);
        assert First(n.children[j]) == rest[0] by { assert Local(n, prefix, compile); }
        var c := Entered(n, j);
        WalkBushy(c, prefix + n.path, rest, full, h, compile);
        hide AddWalk, WellFormed, Rejoin, Shape;
        var r := AddWalk(c, rest, full, h, compile);
        if r.Ok? { ReplacedBushy(n, j, r.value); }
      } else {
        assert Chosen(n, rest) < 0;
        BranchBushy(n, prefix, rest, full, h, compile);
      }
    }
  }

  lemma SplitBushy(n: Tree, prefix: string, path: string, full: string, h: Handler, compile: Compiler)
    requires WellFormed(n, prefix, compile) && Shape(n) && Bushy(n) && Plain(path) && path != "" && path[0] == First(n)
    requires CommonPrefix(path, n.path) < |n.path|
    ensures var r := AddWalk(n, path, full, h, compile); r.Ok? ==> Bushy(r.value)
  {
    var i := CommonPrefix(path, n.path);
    var m := SplitAt(n, i);
    SplitSprouts(n, i);
    SplitWellFormed(n, prefix, i, compile);
    if i < |path| {
      var rest := path[i..];
      assert rest[0] == path[i] != n.path[i] && Plain(rest);
      BranchBushy(m, prefix, rest, full, h, compile);
    }
  }

  lemma PatternBushy(root: Tree, pattern: string, h: Handler, compile: Compiler)
    requires RootOk(root, compile) && Shape(root) && (Fresh(root) || Bushy(root)) && Rooted(pattern) && Plain(pattern)
    ensures var r := AddPattern(root, pattern, h, compile); r.Ok? ==> Bushy(r.value)
  {
    var n := Bumped(root);
    AddPatternCases(root, pattern, h, compile);
    hide AddPattern;
    if Fresh(root) {
      PlainInsert(n, pattern, pattern, h, compile);
    } else {
      BumpedSame(root, "", compile);
      BushyBumped(root);
      hide AddWalk;
      WalkBushy(n, "", pattern, pattern, h, compile);
      var r := AddWalk(n, pattern, pattern, h, compile);
      if r.Ok? { LabelBushy(r.value); }
    }
  }

  lemma LabelBushy(t: Tree)
    requires Bushy(t)
    ensures forall m: nat :: Bushy(t.(maxParams := m))
  {
  }

  lemma {:induction false} AddAllBushy(root: Tree, es: seq<Entry>, compile: Compiler)
    requires Registered(root, compile) && Shape(root) && FitsAll(root, es, compile) && (Fresh(root) || Bushy(root))
    requires forall e | e in es :: Rooted(e.0) && Plain(e.0)
    ensures var r := AddAll(root, es, compile); r.Ok? ==> (es == [] && r.value == root) || Bushy(r.value)
    decreases |es|
  {
    if es != [] {
      hide AddPattern, Bushy, Registered, Shape;
      PatternShape(root, es[0].0, es[0].1, compile);
      IsRootOk(root, compile);
      PatternBushy(root, es[0].0, es[0].1, compile);
      AddPatternRegisters(root, es[0].0, es[0].1, compile);
      var r := AddPattern(root, es[0].0, es[0].1, compile);
      if r.Ok? { AddAllBushy(r.value, es[1..], compile); }
    }
  }

  lemma IsRootOk(root: Tree, compile: Compiler)
    requires Registered(root, compile)
    ensures RootOk(root, compile)
  {
  }

  // ---- The hint ----

  ghost predicate Lists(es: seq<Entry>, s: string) { exists h :: (s, h) in es }

  // The paths registered.
  ghost function PathsOf(es: seq<Entry>): iset<string> { iset s | Lists(es, s) }

  // After registrations without wildcards, a lookup that finds nothing gives
  // the trailing-slash hint exactly if the registered paths call for it.
  lemma StaticHintMeans(es: seq<Entry>, path: string, compile: Compiler)
    requires (forall e | e in es :: Rooted(e.0) && Plain(e.0)) && RegisterAll(es, compile).Ok?
    requires path != "" && path[0] == '/'
    ensures var t := RegisterAll(es, compile).value;
            && Walkable(t)
            && (Lookup(t, path, false).found.None? ==> (Lookup(t, path, false).tsr <==> Hint(PathsOf(es), path)))
  {
    forall e, f | e in es && f in es ensures !Second(e.0, f.0) { PlainNotSecond(e.0, f.0); }
    OneSuffixFits(es, compile);
    EmptyIsRegistered(compile);
    AddAllRegisters(EMPTY_TREE, es, compile);
    AddAllBushy(EMPTY_TREE, es, compile);
    FreshHasNoRoute(EMPTY_TREE);
    var t := RegisterAll(es, compile).value;
    if es != [] {
      hide FitsAll, RegisterAll, AddAll;
      RootHint(t, es, path, compile);
    }
  }

  lemma RootHint(t: Tree, es: seq<Entry>, path: string, compile: Compiler)
    requires Registered(t, compile) && Bushy(t) && path != "" && path[0] == '/'
    requires forall s, x :: HasRoute(t, s, x) <==> (s, x) in es
    ensures Walkable(t)
    ensures Lookup(t, path, false).found.None? ==> (Lookup(t, path, false).tsr <==> Hint(PathsOf(es), path))
  {
    RootShape(t, compile);
    SearchHint(t, "", path, compile);
    hide Hint, Search, Registered, Bushy, HasRoute;
    forall s ensures HasPath(t, s) <==> Lists(es, s) {
      if HasPath(t, s) { var x :| HasRoute(t, s, x); }
      if Lists(es, s) { var x :| (s, x) in es; assert HasRoute(t, s, x); }
    }
    assert RoutesOf(t) == PathsOf(es);
  }

  // What the hint promises: one slash more or less would be found.
  predicate Promised(rs: iset<string>, path: string) { path + "/" in rs || (Ends(path) && Cutting(path) in rs) }

  // It keeps its promise exactly if, where the path ends in a slash and some
  // registered path goes on from it, the path without that slash is registered
  // just when paths part there and do not part again before a second slash.
  lemma HintKept(rs: iset<string>, path: string)
    ensures (Hint(rs, path) <==> Promised(rs, path)) <==>
              (Ends(path) && GoesOn(rs, path) && path + "/" !in rs ==>
                 (Cutting(path) in rs <==> Part(rs, Cutting(path)) && !(Part(rs, path) && GoesOn(rs, path + "/"))))
  {
    hide GoesOn, Part;
  }

  // After "/foo/a", "/foo/b" and "/foobar" the hint for "/foo/" is wrong.
  lemma HintWrong(rs: iset<string>)
    requires rs == iset{"/foo/a", "/foo/b", "/foobar"}
    ensures Hint(rs, "/foo/") && !Promised(rs, "/foo/")
  {
    var a, b, c := "/foo/a", "/foo/b", "/foobar";
    assert "/foo/" <= a && GoesOn(rs, "/foo/");
    assert Cutting("/foo/") == "/foo" && "/foo" < a && "/foo" < c && a[4] != c[4];
    assert Part(rs, "/foo");
    assert "/foo/" + "/" == "/foo//";
    assert a[5] == 'a' && b[5] == 'b' && c[5] == 'a' && c[4] == 'b' && "/foo//"[5] == '/' && "/foo//"[4] == '/';
    assert !GoesOn(rs, "/foo//");
    assert |a| == 6 && |c| == 7 && a[4] == '/' && |"/foo//"| == 6;
    assert "/foo//" !in rs && "/foo" !in rs;
  }
}
