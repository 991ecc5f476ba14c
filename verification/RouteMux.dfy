// The router's registration entry points: each works on a private copy of a
// method's tree and publishes it in one step, or leaves everything as it was.
module RouteMux {
  import opened Wrappers
  import opened Patterns
  import opened PatternPieces
  import opened RouteTree
  import opened RouteNode
  import opened RouteRegister
  import opened Registration
  import opened TreeLookup
  import opened OrderIndependence
  import opened Optional
  import opened Routes
  import opened Walkers
  import opened SuffixWalks

  // ---- Optional segments, then pattern by pattern ----

  lemma EndedRoot(root: Node, r: Result<Tree>, fp: set<object>, more: set<object>)
    requires Ended(root, r, true, fp, more)
    ensures r.Ok? && fp <= more && Own(root, r.value, more)
  {
  }

  lemma EndedMore(root: Node, r: Result<Tree>, ok: bool, fp: set<object>, grown: set<object>, more: set<object>)
    requires Ended(root, r, ok, grown, more) && fp <= grown
    ensures Ended(root, r, ok, fp, more)
  {
  }

  lemma EndedPanic(root: Node, fp: set<object>, more: set<object>)
    ensures Ended(root, Panic, false, fp, more)
  {
  }

  lemma FailedEnd(root: Node, r: Result<Tree>, fp: set<object>, more: set<object>)
    requires Ended(root, r, false, fp, more)
    ensures r.Panic?
  {
  }

  // Both expansions of a pattern, one after the other.
  ghost function AddBoth(t: Tree, without: string, with: string, h: Handler, lib: Library): Result<Tree>
    requires Shape(t)
  {
    match AddRoute(t, without, h, lib)
    case Ok(u) => AddRoute(u, with, h, lib)
    case Panic => Panic
  }

  lemma AddRouteCases(t: Tree, path: string, h: Handler, lib: Library)
    requires Shape(t)
    ensures CountOptional(path) > MAX_OPTIONAL ==> AddRoute(t, path, h, lib).Panic?
    ensures CountOptional(path) <= MAX_OPTIONAL && ExpandOptional(path).NotOptional? ==>
              AddRoute(t, path, h, lib) == if lib.validText(path) then AddPattern(t, path, h, lib.compile) else Panic
    ensures CountOptional(path) <= MAX_OPTIONAL && ExpandOptional(path).Malformed? ==> AddRoute(t, path, h, lib).Panic?
    ensures CountOptional(path) <= MAX_OPTIONAL && ExpandOptional(path).Both? ==>
              AddRoute(t, path, h, lib) == AddBoth(t, ExpandOptional(path).without, ExpandOptional(path).with, h, lib)
  {
  }

  method AddRouteInPlace(root: Node, path: string, h: Handler, lib: Library, ghost t: Tree, ghost fp: set<object>)
    returns (ok: bool, ghost more: set<object>)
    requires Own(root, t, fp) && Shape(t)
    modifies root, root.children
    ensures root.children == old(root.children) || fresh(root.children)
    ensures Ended(root, AddRoute(t, path, h, lib), ok, fp, more)
    decreases |path|
  {
    AddRouteCases(t, path, h, lib);
    hide *;
    more := fp;
    EndedPanic(root, fp, more);
    var count := CountOptionalSegments(path);
    if count > MAX_OPTIONAL {
      return false, more;
    }
    match ExpandOptional(path)
    case Malformed =>
      ok := false;
    case Both(without, with) =>
      ok, more := AddRouteInPlace(root, without, h, lib, t, fp);
      ghost var first := AddRoute(t, without, h, lib);
      if !ok {
        FailedEnd(root, first, fp, more);
        EndedPanic(root, fp, more);
        return false, more;
      }
      EndedRoot(root, first, fp, more);
      ghost var grown := more;
      ok, more := AddRouteInPlace(root, with, h, lib, first.value, grown);
      EndedMore(root, AddRoute(first.value, with, h, lib), ok, fp, grown, more);
    case NotOptional =>
      if lib.validText(path) {
        ok, more := AddPatternInPlace(root, path, h, lib.compile, t, fp);
      } else {
        ok := false;
      }
  }

  // ---- The router ----

  const METHODS := ["GET", "HEAD", "POST", "PUT", "PATCH", "DELETE", "OPTIONS", "CONNECT", "TRACE", "QUERY", "*"]

  // The array index for a method, or -1.
  function MethodIdx(m: string): (i: int)
    ensures -1 <= i < |METHODS|
    ensures i >= 0 ==> METHODS[i] == m
    ensures i < 0 ==> m !in METHODS
  {
    match m
    case "GET" => 0
    case "HEAD" => 1
    case "POST" => 2
    case "PUT" => 3
    case "PATCH" => 4
    case "DELETE" => 5
    case "OPTIONS" => 6
    case "CONNECT" => 7
    case "TRACE" => 8
    case "QUERY" => 9
    case "*" => 10
    case _ => -1
  }

  // The tree of a method that has no routes yet.
  function OrEmpty(v: Option<Tree>): Tree { if v.Some? then v.value else EMPTY_TREE }

  // What every reader of a set of published roots relies on.
  ghost predicate Published(trees: seq<Option<Node>>, values: seq<Option<Tree>>, fp: set<object>)
    reads fp
  {
    && |trees| == |METHODS| == |values|
    && forall i | 0 <= i < |METHODS| ::
         && (trees[i].Some? <==> values[i].Some?)
         && (trees[i].Some? ==> Rep(trees[i].value, values[i].value, fp) && Shape(values[i].value))
  }

  // Publishing one more root.
  lemma PublishOne(trees: seq<Option<Node>>, values: seq<Option<Tree>>, fp: set<object>, i: nat, root: Node, t: Tree,
                   more: set<object>)
    requires Published(trees, values, fp) && i < |METHODS| && fp <= more
    requires Rep(root, t, more) && Shape(t)
    ensures Published(trees[i := Some(root)], values[i := Some(t)], more)
  {
    hide Rep, Shape;
    forall k | 0 <= k < |trees| && trees[k].Some? ensures Rep(trees[k].value, values[k].value, more) {
      RepMore(trees[k].value, values[k].value, fp, more);
    }
  }

  // One more registration, after the others.
  lemma {:induction false} AppendRoute(t: Tree, rs: seq<Entry>, e: Entry, lib: Library)
    requires Shape(t)
    ensures AddRoutes(t, rs + [e], lib) == match AddRoutes(t, rs, lib)
                                           case Ok(u) => AddRoute(u, e.0, e.1, lib)
                                           case Panic => Panic
    decreases |rs|
  {
    hide Shape, AddRoute;
    if rs == [] {
      assert (rs + [e])[0] == e && (rs + [e])[1..] == [];
    } else {
      assert (rs + [e])[1..] == rs[1..] + [e];
      var r := AddRoute(t, rs[0].0, rs[0].1, lib);
      if r.Ok? { AppendRoute(r.value, rs[1..], e, lib); }
    }
  }

  // `t` is what the registrations `rs` make of an empty tree.
  ghost predicate BuiltFrom(t: Tree, rs: seq<Entry>, lib: Library) { AddRoutes(EMPTY_TREE, rs, lib) == Ok(t) }

  lemma BuiltOneMore(t: Tree, rs: seq<Entry>, e: Entry, lib: Library)
    requires BuiltFrom(t, rs, lib)
    ensures Shape(t)
    ensures var r := AddRoute(t, e.0, e.1, lib); r.Ok? ==> Shape(r.value) && BuiltFrom(r.value, rs + [e], lib)
  {
    AppendRoute(EMPTY_TREE, rs, e, lib);
  }

  class Mux {
    const lib: Library
    // One root per method, replaced as a whole: what a reader loads.
    var trees: seq<Option<Node>>
    // How many net/http middleware Use has installed.
    var middleware: nat
    // What the roots stand for, all nodes and arrays reachable from them, and
    // the registrations that have succeeded, per method.
    ghost var values: seq<Option<Tree>>
    ghost var fp: set<object>
    ghost var routes: seq<seq<Entry>>

    ghost predicate Valid()
      reads this, fp
    {
      && this !in fp && Published(trees, values, fp) && |routes| == |METHODS|
      && forall i | 0 <= i < |METHODS| :: BuiltFrom(OrEmpty(values[i]), routes[i], lib)
    }

    constructor (lib: Library)
      ensures Valid() && this.lib == lib && middleware == 0
      ensures values == seq(|METHODS|, _ => None) && routes == seq(|METHODS|, _ => [])
    {
      this.lib := lib;
      trees := seq(|METHODS|, _ => None);
      middleware := 0;
      values := seq(|METHODS|, _ => None);
      fp := {};
      routes := seq(|METHODS|, _ => []);
    }

    // A private root for a method: a copy, or a new one.
    method PrivateRoot(idx: nat) returns (root: Node)
      requires Valid() && idx < |METHODS|
      ensures fresh(root) && fresh(root.children) && Own(root, OrEmpty(values[idx]), fp)
    {
      hide Rep, RepAll, Shape, BuiltFrom;
      if trees[idx].Some? {
        root := CopyNode(trees[idx].value, values[idx].value, fp);
      } else {
        var none := new Node[0];
        root := new Node("", StaticNode, none);
        EmptyOwned(root, fp);
      }
    }

    // Finds the handler for a request, with the walker the tree allows. While
    // every suffix behind a regular expression parameter fits, and braces stand
    // around whole segments only, the result is the best match among what has
    // been registered, or with case folding a match.
    method Match(verb: string, url: string, params: ParamsBuf, ci: bool)
      returns (handler: Option<Handler>, pattern: string, tsr: bool)
      requires Valid() && params.Valid() && params.View() == [] && params !in fp && params.buf !in fp
      requires var idx := MethodIdx(verb); idx >= 0 ==> idx < |values| && Servable(OrEmpty(values[idx]))
      modifies params, params.buf
      ensures params.Valid()
      ensures var idx := MethodIdx(verb);
              if idx < 0 then handler.None?
              else
                && Dispatched(OrEmpty(values[idx]), url, ci, handler, pattern, tsr, params.View())
                && (Regular(routes[idx], lib) ==> Serves(routes[idx], lib, url, ci, handler, pattern, params.View()))
    {
      handler, pattern, tsr := None, "", false;
      var idx := MethodIdx(verb);
      if idx < 0 {
        return;
      }
      Sizes();
      ghost var t := OrEmpty(values[idx]);
      if Regular(routes[idx], lib) {
        Served(t, routes[idx], lib, url, ci);
      }
      hide BuiltFrom, Rep, Shape, Dispatched, Serves, Regular, Servable;
      if trees[idx].None? {
        EmptyMisses(url, ci);
        return;
      }
      handler, pattern, tsr := FindRoute(trees[idx].value, url, params, ci, t, fp);
    }

    // Such registrations leave a tree that requests can be matched in.
    lemma MayMatch(idx: nat)
      requires Valid() && idx < |METHODS| == |routes| == |values| && Regular(routes[idx], lib)
      ensures Servable(OrEmpty(values[idx]))
    {
      RegularServes(OrEmpty(values[idx]), routes[idx], lib);
    }

    // Registers a handler; `ok` is false where the code panics.
    method Handle(verb: string, pattern: string, handler: Option<Handler>) returns (ok: bool)
      requires Valid()
      modifies this`trees, this`values, this`fp, this`routes
      ensures Valid() && old(fp) <= fp && Published(old(trees), old(values), old(fp))
      ensures ok ==> verb in METHODS && pattern != "" && pattern[0] == '/' && handler.Some?
      ensures var idx := MethodIdx(verb);
              if idx < 0 || pattern == "" || pattern[0] != '/' || handler.None? then
                !ok && trees == old(trees) && values == old(values) && routes == old(routes)
              else Publishes(old(trees), old(values), old(routes), idx, pattern, handler.value, ok)
    {
      var idx := MethodIdx(verb);
      if verb == "" || pattern == "" || pattern[0] != '/' || handler.None? || idx < 0 {
        return false;
      }
      ok := Publish(idx, pattern, handler.value);
    }

    // The same for a FastHandler, which net/http middleware rules out.
    method HandleFast(verb: string, pattern: string, fast: Option<Handler>) returns (ok: bool)
      requires Valid()
      modifies this`trees, this`values, this`fp, this`routes
      ensures Valid() && old(fp) <= fp && Published(old(trees), old(values), old(fp))
      ensures var idx := MethodIdx(verb);
              if idx < 0 || pattern == "" || pattern[0] != '/' || fast.None? || middleware > 0 then
                !ok && trees == old(trees) && values == old(values) && routes == old(routes)
              else Publishes(old(trees), old(values), old(routes), idx, pattern, fast.value, ok)
    {
      var idx := MethodIdx(verb);
      if verb == "" || pattern == "" || pattern[0] != '/' || fast.None? || middleware > 0 || idx < 0 {
        return false;
      }
      ok := Publish(idx, pattern, fast.value);
    }

    // What one registration does to the published state `ts`, `vs`, `rs`.
    ghost predicate Publishes(ts: seq<Option<Node>>, vs: seq<Option<Tree>>, rs: seq<seq<Entry>>, idx: nat,
                              pattern: string, h: Handler, ok: bool)
      requires idx < |METHODS| == |ts| == |vs| == |rs|
      reads this
    {
      && Shape(OrEmpty(vs[idx])) &&
      var r := AddRoute(OrEmpty(vs[idx]), pattern, h, lib);
      && ok == r.Ok? && |trees| == |METHODS|
      && values == (if ok then vs[idx := Some(r.value)] else vs)
      && trees == (if ok then ts[idx := trees[idx]] else ts)
      && routes == (if ok then rs[idx := rs[idx] + [(pattern, h)]] else rs)
    }

    // Registers on a private copy that nobody else can see.
    method Build(idx: nat, pattern: string, h: Handler) returns (ok: bool, root: Node, ghost more: set<object>)
      requires Valid() && idx < |METHODS|
      ensures Shape(OrEmpty(values[idx]))
      ensures var r := AddRoute(OrEmpty(values[idx]), pattern, h, lib);
              ok == r.Ok? && (ok ==> fp <= more && this !in more && Rep(root, r.value, more))
    {
      assert Shape(OrEmpty(values[idx]));
      hide *;
      root := PrivateRoot(idx);
      ghost var t := OrEmpty(values[idx]);
      ok, more := AddRouteInPlace(root, pattern, h, lib, t, fp);
      if ok {
        EndedRoot(root, AddRoute(t, pattern, h, lib), fp, more);
        OwnRep(root, AddRoute(t, pattern, h, lib).value, more);
        more := more + {root, root.children};
        RepWithout(root, AddRoute(t, pattern, h, lib).value, more, this);
        more := more - {this};
      } else {
        FailedEnd(root, AddRoute(t, pattern, h, lib), fp, more);
      }
    }

    // Registers on a private copy and publishes it: no node or array that was
    // reachable before is written to, whether it succeeds or not.
    method Publish(idx: nat, pattern: string, h: Handler) returns (ok: bool)
      requires Valid() && idx < |METHODS|
      modifies this`trees, this`values, this`fp, this`routes
      ensures Valid() && old(fp) <= fp
      ensures Publishes(old(trees), old(values), old(routes), idx, pattern, h, ok)
      ensures Published(old(trees), old(values), old(fp))
    {
      BuiltOneMore(OrEmpty(values[idx]), routes[idx], (pattern, h), lib);
      Sizes();
      hide *;
      var root;
      ghost var more;
      ghost var r := AddRoute(OrEmpty(values[idx]), pattern, h, lib);
      ok, root, more := Build(idx, pattern, h);
      if ok {
        Store(idx, root, r.value, more, (pattern, h));
      }
    }

    lemma Sizes()
      requires Valid()
      ensures |trees| == |values| == |routes| == |METHODS| && this !in fp && Published(trees, values, fp)
    {
    }

    method Store(idx: nat, root: Node, ghost t: Tree, ghost more: set<object>, ghost e: Entry)
      requires Valid() && idx < |METHODS| == |routes|
      requires fp <= more && this !in more && Rep(root, t, more) && Shape(t) && BuiltFrom(t, routes[idx] + [e], lib)
      modifies this`trees, this`values, this`fp, this`routes
      ensures Valid() && fp == more
      ensures trees == old(trees)[idx := Some(root)] && values == old(values)[idx := Some(t)]
      ensures routes == old(routes)[idx := old(routes)[idx] + [e]]
    {
      hide Rep, Shape, BuiltFrom;
      PublishOne(trees, values, fp, idx, root, t, more);
      trees, values, fp := trees[idx := Some(root)], values[idx := Some(t)], more;
      routes := routes[idx := routes[idx] + [e]];
    }
  }

  // A lookup in `t` has given these results.
  ghost predicate Dispatched(t: Tree, url: string, ci: bool, handler: Option<Handler>, pattern: string, tsr: bool, caps: seq<Param>)
    requires Walkable(t)
  {
    && Returns(Lookup(t, url, ci), handler, pattern, tsr)
    && (handler.Some? ==> caps == Lookup(t, url, ci).found.value.caps)
  }

  // The walkers can be used on the tree.
  predicate Servable(t: Tree) { Walkable(t) && (t.maxParams == 0 ==> NoWild(t)) }

  // Registrations the theorems about lookups speak of.
  ghost predicate Regular(rs: seq<Entry>, lib: Library) {
    && (forall e | e in rs :: Simple(e.0) && Expands(e, lib))
    && FitRoutes(rs, lib)
  }

  // What a request gets, in terms of the registrations alone: an expansion of
  // a registered pattern, with captures that spell the path out, up to case if
  // that is folded; the best match among all of them, and nothing only if none
  // of them matches, as long as folding leaves nothing ambiguous.
  ghost predicate Serves(rs: seq<Entry>, lib: Library, url: string, ci: bool,
                         handler: Option<Handler>, pattern: string, caps: seq<Param>) {
    && (forall e | e in rs :: Expands(e, lib)) &&
    var es := Flat(rs, lib);
    match handler
    case None => Unambiguous(es, ci) ==> forall e | e in es :: !Describes(e.0, url, ci, lib.compile)
    case Some(h) =>
      && (pattern, h) in es && Binds(pattern, caps, lib.compile) && PrefixMatch(url, Substitute(pattern, caps), ci)
      && Explains(pattern, caps, Substitute(pattern, caps), lib.compile)
      && (!ci ==> Substitute(pattern, caps) == url)
      && (Unambiguous(es, ci) ==> Preferred(Found(h, pattern, caps), es, url, ci, lib.compile))
  }

  lemma RegularServes(t: Tree, rs: seq<Entry>, lib: Library)
    requires BuiltFrom(t, rs, lib) && Regular(rs, lib)
    ensures Registered(t, lib.compile) && Servable(t)
  {
    RegistrationsDecideLookups(rs, "", false, lib);
    MaxParamsMeansNoWild(t, lib.compile);
  }

  // One more registration leaves a tree that requests can be matched in
  // exactly if it strands no wildcard child.
  lemma StaysServable(root: Tree, pattern: string, h: Handler, compile: Compiler)
    requires Registered(root, compile) && Shape(root) && Rooted(pattern)
    ensures var r := AddPattern(root, pattern, h, compile);
            r.Ok? ==> (Servable(r.value) <==> !RootStrands(root, pattern))
  {
    PatternStrands(root, pattern, h, compile);
    var r := AddPattern(root, pattern, h, compile);
    if r.Ok? {
      if NoSecond(root, pattern) {
        NoSecondFits(root, pattern, compile);
        AddPatternRegisters(root, pattern, h, compile);
        MaxParamsMeansNoWild(r.value, compile);
      } else {
        SecondCounts(root, pattern, compile);
        RaisedAbove(root, pattern, h, compile);
      }
      hide AddPattern, Walkable, NoWild, RootStrands, Registered, Shape;
    }
  }

  lemma RaisedAbove(root: Tree, pattern: string, h: Handler, compile: Compiler)
    requires Shape(root) && CountParams(pattern) > 0 && AddPattern(root, pattern, h, compile).Ok?
    ensures AddPattern(root, pattern, h, compile).value.maxParams > 0
  {
    hide InsertChild, AddWalk, CountParams, Shape;
  }

  lemma Served(t: Tree, rs: seq<Entry>, lib: Library, url: string, ci: bool)
    requires BuiltFrom(t, rs, lib) && Regular(rs, lib)
    ensures Walkable(t)
    ensures forall handler, pattern, tsr, caps :: Dispatched(t, url, ci, handler, pattern, tsr, caps) ==>
              Serves(rs, lib, url, ci, handler, pattern, caps)
  {
    RegularServes(t, rs, lib);
    RegistrationsDecideLookups(rs, url, ci, lib);
    RegistrationsSpellLookups(rs, url, ci, lib);
    hide AddRoutes, Flat, Expands, Preferred, Explains, Unambiguous, Describes, Substitute;
    forall handler, pattern, tsr, caps | Dispatched(t, url, ci, handler, pattern, tsr, caps)
      ensures Serves(rs, lib, url, ci, handler, pattern, caps)
    {
      if handler.Some? { Unfolded(url, Substitute(pattern, caps)); }
    }
  }

  lemma Unfolded(s: string, t: string)
    ensures PrefixMatch(s, t, false) ==> s == t
  {
  }

  lemma EmptyMisses(url: string, ci: bool)
    ensures Walkable(EMPTY_TREE) && Dispatched(EMPTY_TREE, url, ci, None, "", false, [])
  {
  }

  lemma RootIs(root: Node, t: Tree, fp: set<object>)
    requires Rep(root, t, fp) && Servable(t)
    ensures Walkable(t) && root.maxParams == t.maxParams && (t.maxParams == 0 ==> NoWild(t))
  {
  }

  lemma DispatchedIs(t: Tree, url: string, ci: bool, handler: Option<Handler>, pattern: string, tsr: bool, caps: seq<Param>)
    requires Walkable(t) && Returns(Lookup(t, url, ci), handler, pattern, tsr)
    requires handler.Some? ==> caps == Lookup(t, url, ci).found.value.caps
    ensures Dispatched(t, url, ci, handler, pattern, tsr, caps)
  {
  }

  lemma FoundInStatic(t: Tree, url: string, ci: bool)
    requires Walkable(t)
    ensures Lookup(t, url, ci).found.Some? <==> Search(t, url, ci, false).Hit?
    ensures Lookup(t, url, ci).found.Some? ==> Lookup(t, url, ci).found.value == Search(t, url, ci, false).found
  {
  }

  // The walker is chosen by the root's count of wildcards.
  method FindRoute(root: Node, url: string, params: ParamsBuf, ci: bool, ghost t: Tree, ghost fp: set<object>)
    returns (handler: Option<Handler>, pattern: string, tsr: bool)
    requires Rep(root, t, fp) && Servable(t)
    requires params.Valid() && params.View() == [] && params !in fp && params.buf !in fp
    modifies params, params.buf
    ensures params.Valid() && Walkable(t) && Dispatched(t, url, ci, handler, pattern, tsr, params.View())
  {
    RootIs(root, t, fp);
    hide Rep, RepAll, Dispatched, Walkable, NoWild, Search, Lookup, Returns;
    if root.maxParams == 0 {
      handler, pattern, tsr := GetValueStatic(root, url, ci, t, fp);
      StaticHasNoCaptures(t, url, ci);
      FoundInStatic(t, url, ci);
      SomeFound(Lookup(t, url, ci), handler, pattern, tsr);
    } else {
      handler, pattern, tsr := GetValue(root, url, params, ci, t, fp);
    }
    DispatchedIs(t, url, ci, handler, pattern, tsr, params.View());
  }

  lemma SomeFound(answer: Answer, handler: Option<Handler>, pattern: string, tsr: bool)
    requires Returns(answer, handler, pattern, tsr)
    ensures handler.Some? == answer.found.Some?
  {
  }

  // No wildcard, no captures.
  lemma {:induction false} StaticHasNoCaptures(t: Tree, url: string, ci: bool)
    requires Walkable(t) && NoWild(t)
    ensures var o := Search(t, url, ci, false); o.Hit? ==> o.found.caps == []
    decreases t
  {
    if |url| > |t.path| && PrefixMatch(url[..|t.path|], t.path, ci) {
      var rest := url[|t.path|..];
      var j := FindIndex(t.indices, rest[0], ci);
      if j >= 0 { StaticHasNoCaptures(t.children[j], rest, ci); }
    }
  }

  lemma EmptyOwned(n: Node, fp: set<object>)
    requires Fields(n, EMPTY_TREE) && n.children.Length == 0 && n !in fp && n.children !in fp
    ensures Own(n, EMPTY_TREE, fp)
  {
  }

  // A router is not a node, nor an array of nodes.
  lemma {:induction false} RepWithout(n: Node, t: Tree, fp: set<object>, m: Mux)
    requires Rep(n, t, fp)
    ensures Rep(n, t, fp - {m})
    decreases t
  {
    forall i | 0 <= i < |t.children| ensures Rep(n.children[..][i], t.children[i], fp - {m}) {
      RepWithout(n.children[..][i], t.children[i], fp, m);
    }
  }
}
