// The radix tree as a value, and registration as a function on it. The class
// in RouteNode.dfy does the same work in place and is proved against this.
module RouteTree {
  import opened Wrappers
  import opened Patterns

  datatype NodeType = StaticNode | RootNode | ParamNode | WildcardNode | RegexNode

  // A registered handler: an http.Handler or a FastHandler, told apart by kind.
  datatype Handler = Standard(id: nat) | Fast(id: nat)

  datatype Tree = Tree(
    path: string, route: Option<Handler>, indices: string, children: seq<Tree>,
    pattern: string, priority: nat, nType: NodeType, wildChild: bool,
    nameEnd: nat, maxParams: nat, regexp: Option<Regexp>)

  const EMPTY_TREE := Tree("", None, "", [], "", 0, StaticNode, false, 0, 0, None)

  const PRIORITY_RANGE := 0x1_0000_0000
  const MAX_PARAMS_LIMIT := 255

  function Last<T>(s: seq<T>): T
    requires s != []
  {
    s[|s| - 1]
  }

  // Number of nodes.
  function Size(t: Tree): nat
    decreases t
  {
    1 + SizeAll(t.children)
  }

  function SizeAll(ts: seq<Tree>): nat
    decreases ts
  {
    if ts == [] then 0 else Size(ts[0]) + SizeAll(ts[1..])
  }

  lemma {:induction false} ElementSize(ts: seq<Tree>, i: nat)
    requires i < |ts|
    ensures Size(ts[i]) <= SizeAll(ts)
  {
    if i > 0 {
      ElementSize(ts[1..], i - 1);
    }
  }

  // ---- Wildcard tokens ----

  // The first wildcard token of a path: where it starts (-1: there is none),
  // its text, and whether it is well formed.
  datatype Wild = Wild(token: string, start: int, valid: bool)

  predicate Single(token: string) {
    forall k | 1 <= k < |token| :: token[k] != ':' && token[k] != '*'
  }

  function FindWild(path: string): (w: Wild)
    ensures -1 <= w.start < |path|
    ensures w.start < 0 <==> Plain(path)
    ensures w.start >= 0 ==> Plain(path[..w.start]) && IsMark(path[w.start])
    ensures w.start >= 0 ==> w.start + |w.token| <= |path|
    ensures w.start >= 0 && w.valid ==> w.token != "" && w.token == path[w.start..w.start + |w.token|]
    ensures w.start >= 0 && w.valid && w.token[0] == '{' ==> |w.token| >= 2 && Last(w.token) == '}'
  {
    if path == "" then Wild("", -1, false)
    else if path[0] == ':' || path[0] == '*' then
      var token := path[..SegmentEnd(path)];
      Wild(token, 0, Single(token))
    else if path[0] == '{' then
      var close := LastIndexOf(path[..SegmentEnd(path)], '}');
      if close < 0 then Wild("", 0, false) else Wild(path[..close + 1], 0, true)
    else
      var w := FindWild(path[1..]);
      if w.start < 0 then w else w.(start := w.start + 1)
  }

  // The first token is the one a text without wildcard bytes runs up to.
  lemma {:induction false} FindWildAt(u: string, v: string)
    requires Plain(u) && v != "" && (v[0] == ':' || v[0] == '*')
    ensures var token := v[..SegmentEnd(v)]; FindWild(u + v) == Wild(token, |u|, Single(token))
    decreases |u|
  {
    if u == "" {
      assert u + v == v;
    } else {
      assert (u + v)[1..] == u[1..] + v;
      FindWildAt(u[1..], v);
    }
  }

  // Where the scan for further tokens goes on.
  function NextStart(w: Wild): int { w.start + (if |w.token| > 1 then |w.token| else 1) }

  // Number of wildcard tokens in a pattern.
  function CountParams(p: string): nat
    decreases |p|
  {
    var w := FindWild(p);
    if w.start < 0 then 0 else 1 + CountParams(p[NextStart(w)..])
  }

  // ---- Building blocks of an insertion ----

  function CommonPrefix(a: string, b: string): (i: nat)
    ensures i <= |a| && i <= |b| && a[..i] == b[..i]
    ensures i < |a| && i < |b| ==> a[i] != b[i]
  {
    if a == "" || b == "" || a[0] != b[0] then 0
    else
      var i := CommonPrefix(a[1..], b[1..]);
      assert a[..i + 1] == [a[0]] + a[1..][..i];
      assert b[..i + 1] == [b[0]] + b[1..][..i];
      i + 1
  }

  function Bump(priority: nat): nat { (priority + 1) % PRIORITY_RANGE }

  function Drop(priority: nat): nat { (priority + PRIORITY_RANGE - 1) % PRIORITY_RANGE }

  function Bumped(t: Tree): Tree { t.(priority := Bump(t.priority)) }

  // Cuts the node's text at `i`; what the node held moves to a single child.
  function SplitAt(n: Tree, i: nat): Tree
    requires i <= |n.path|
  {
    if i == |n.path| then n
    else
      var child := EMPTY_TREE.(
        path := n.path[i..], wildChild := n.wildChild, indices := n.indices,
        children := n.children, route := n.route, priority := Drop(n.priority),
        pattern := n.pattern, regexp := n.regexp);
      n.(children := [child], indices := [n.path[i]], path := n.path[..i],
         route := None, pattern := "", wildChild := false)
  }

  // Where a child of this priority settles when it moves to the front past
  // children of lower priority.
  function Settle(cs: seq<Tree>, pos: nat, priority: nat): (np: nat)
    requires pos < |cs|
    ensures np <= pos
  {
    if pos > 0 && cs[pos - 1].priority < priority then Settle(cs, pos - 1, priority) else pos
  }

  function MoveUp<T>(s: seq<T>, pos: nat, np: nat): (r: seq<T>)
    requires np <= pos < |s|
    ensures |r| == |s|
    ensures forall k | 0 <= k < |s| :: r[k] == s[MovedFrom(pos, np, k)]
  {
    s[..np] + [s[pos]] + s[np..pos] + s[pos + 1..]
  }

  // The index an element had before MoveUp brought it to `k`.
  function MovedFrom(pos: nat, np: nat, k: nat): (i: nat)
    requires np <= pos
    ensures i <= pos || i == k
  {
    if k == np then pos else if np < k <= pos then k - 1 else k
  }

  function NewPos(n: Tree, pos: nat): (np: nat)
    requires pos < |n.children|
    ensures np <= pos
  {
    var child := Bumped(n.children[pos]);
    Settle(n.children[pos := child], pos, child.priority)
  }

  // Counts one more registration below the child at `pos` and keeps children
  // of higher priority first.
  function IncrementPrio(n: Tree, pos: nat): Tree
    requires pos < |n.indices| <= |n.children|
  {
    var np := NewPos(n, pos);
    n.(children := MoveUp(n.children[pos := Bumped(n.children[pos])], pos, np),
       indices := MoveUp(n.indices, pos, np))
  }

  // Adds a static child for first byte `c`, before the wildcard child.
  function AppendStatic(n: Tree, c: char): (m: Tree)
    requires n.wildChild ==> n.children != []
    ensures |m.children| == |n.children| + 1 && |m.indices| == |n.indices| + 1
  {
    n.(indices := n.indices + [c],
       children := if n.wildChild
                   then n.children[..|n.children| - 1] + [EMPTY_TREE, Last(n.children)]
                   else n.children + [EMPTY_TREE])
  }

  function SetRoute(n: Tree, full: string, h: Handler): Tree {
    n.(route := Some(h), pattern := full)
  }

  // The node(s) for a path nothing in the tree shares beyond `n`.
  function InsertChild(n: Tree, path: string, full: string, h: Handler, compile: Compiler): Result<Tree>
    decreases |path|, 2
  {
    var w := FindWild(path);
    if w.start < 0 then Ok(SetRoute(n.(path := path), full, h))
    else if !w.valid || |w.token| < 2 then Panic
    else if w.token[0] == ':' then
      InsertParam(TextBefore(n, path, w.start), EMPTY_TREE.(nType := ParamNode, path := w.token),
                  path[w.start..], full, h, compile)
    else if w.token[0] == '{' then
      InsertRegex(TextBefore(n, path, w.start), w.token, path[w.start..], full, h, compile)
    else InsertCatchAll(n, path, w.start, |w.token|, full, h)
  }

  // The node's text becomes what comes before a token, if anything does.
  function TextBefore(n: Tree, path: string, start: nat): Tree
    requires start <= |path|
  {
    if start > 0 then n.(path := path[..start]) else n
  }

  function InsertRegex(n: Tree, token: string, path: string, full: string, h: Handler, compile: Compiler): Result<Tree>
    requires 2 <= |token| <= |path| && token[0] == '{' && Last(token) == '}'
    decreases |path|, 1
  {
    var colon := IndexOf(token[1..], ':');
    if colon < 0 then Panic
    else
      var re := compile(token[2 + colon..|token| - 1]);
      if re.None? || 1 + colon > MAX_NAME_END then Panic
      else
        InsertParam(n, EMPTY_TREE.(nType := RegexNode, path := token, regexp := re, nameEnd := 1 + colon),
                    path, full, h, compile)
  }

  // `start` and `size` place the catch-all token in `path`.
  function InsertCatchAll(n: Tree, path: string, start: nat, size: nat, full: string, h: Handler): Result<Tree>
    requires start <= |path|
  {
    if start + size != |path| then Panic
    else if n.path != "" && Last(n.path) == '/' then Panic
    else if start == 0 || path[start - 1] != '/' then Panic
    else
      var leaf := CatchAllLeaf(path[start - 1..], full, h);
      Ok(n.(path := path[..start - 1], children := [CatchAllNode(leaf)], indices := "/"))
  }

  function CatchAllLeaf(path: string, full: string, h: Handler): Tree {
    EMPTY_TREE.(path := path, nType := WildcardNode, route := Some(h), pattern := full, priority := 1)
  }

  function CatchAllNode(leaf: Tree): Tree {
    EMPTY_TREE.(wildChild := true, children := [leaf], priority := 1)
  }

  // `child` becomes the wildcard child of `n`; `path` starts with its token.
  function InsertParam(n: Tree, child: Tree, path: string, full: string, h: Handler, compile: Compiler): Result<Tree>
    requires 2 <= |child.path| <= |path|
    decreases |path|, 0
  {
    var bumped := Bumped(child);
    if |child.path| < |path| then
      match InsertChild(EMPTY_TREE.(priority := 1), path[|child.path|..], full, h, compile)
      case Ok(next) => Ok(n.(children := n.children + [bumped.(children := [next])], wildChild := true))
      case Panic => Panic
    else Ok(n.(children := n.children + [SetRoute(bumped, full, h)], wildChild := true))
  }

  // ---- Insertion ----

  // What the walks below rely on: a child for every index, and a child to be
  // the wildcard child. Every registration keeps this, whatever its pattern.
  predicate Shape(n: Tree)
    decreases n
  {
    && |n.indices| <= |n.children|
    && (n.wildChild ==> n.children != [])
    && forall j | 0 <= j < |n.children| :: Shape(n.children[j])
  }

  // What a walk can still descend. A parameter node counts twice: when its
  // text is split the walk may go on in the lower half.
  function Weight(t: Tree): nat
    decreases t
  {
    (if t.nType == ParamNode then 2 else 1) + WeightAll(t.children)
  }

  function WeightAll(ts: seq<Tree>): nat
    decreases ts
  {
    if ts == [] then 0 else Weight(ts[0]) + WeightAll(ts[1..])
  }

  lemma {:induction false} ElementWeight(ts: seq<Tree>, i: nat)
    requires i < |ts|
    ensures Weight(ts[i]) <= WeightAll(ts)
  {
    if i > 0 {
      ElementWeight(ts[1..], i - 1);
    }
  }

  // A child the walk descends into, counted.
  function Entered(n: Tree, j: nat): (t: Tree)
    requires Shape(n) && j < |n.children|
    ensures t == Bumped(n.children[j]) && Shape(t) && Size(t) < Size(n) && Weight(t) < Weight(n)
  {
    assert Shape(n.children[j]);
    ElementSize(n.children, j);
    ElementWeight(n.children, j);
    Bumped(n.children[j])
  }

  // Whether the registration follows the wildcard child `child`.
  predicate TokenFits(child: Tree, path: string) {
    && child.path <= path
    && child.nType != WildcardNode
    && (|child.path| >= |path| || path[|child.path|] == '/')
  }

  function WithChild(n: Tree, j: nat, r: Result<Tree>): Result<Tree>
    requires j < |n.children|
  {
    match r
    case Ok(t) => Ok(n.(children := n.children[j := t]))
    case Panic => Panic
  }

  function AddStatic(n: Tree, path: string, full: string, h: Handler, compile: Compiler): Result<Tree>
    requires path != ""
    requires |n.indices| <= |n.children| && (n.wildChild ==> n.children != [])
  {
    if n.wildChild && Last(n.children).nType == WildcardNode then Panic
    else
      var m := AppendStatic(n, path[0]);
      var np := NewPos(m, |n.indices|);
      var k := IncrementPrio(m, |n.indices|);
      WithChild(k, np, InsertChild(k.children[np], path, full, h, compile))
  }

  lemma SplitShape(n: Tree, i: nat)
    requires Shape(n) && i <= |n.path|
    ensures Shape(SplitAt(n, i))
    ensures i < |n.path| && n.nType == ParamNode ==> Weight(Entered(SplitAt(n, i), 0)) < Weight(n)
  {
    var m := SplitAt(n, i);
    if i < |n.path| {
      var child := m.children[0];
      assert forall j | 0 <= j < |child.children| :: child.children[j] == n.children[j];
      assert Shape(child);
    }
  }

  function AddWalk(n: Tree, path: string, full: string, h: Handler, compile: Compiler): Result<Tree>
    requires Shape(n)
    decreases Weight(n), 1
  {
    var i := CommonPrefix(path, n.path);
    if i < |n.path| then
      SplitShape(n, i);
      var m := SplitAt(n, i);
      if i == |path| then Ok(SetRoute(m, full, h))
      else if n.nType == ParamNode && path[i] == '/' then
        WithChild(m, 0, AddWalk(Entered(m, 0), path[i..], full, h, compile))
      else Graft(m, path[i..], full, h, compile)
    else if i == |path| then
      if n.route.Some? then Panic else Ok(SetRoute(n, full, h))
    else AddBelow(n, path[i..], full, h, compile)
  }

  // Whether it continues in a static child found by its index.
  predicate Moves(n: Tree, rest: string)
    requires rest != ""
  {
    !(n.nType == ParamNode && rest[0] == '/' && |n.children| == 1) && IndexOf(n.indices, rest[0]) >= 0
  }

  // The child the registration continues in, or -1.
  function Chosen(n: Tree, rest: string): (j: int)
    requires Shape(n) && rest != ""
    ensures -1 <= j < |n.children|
    ensures Moves(n, rest) ==> 0 <= j < |n.indices|
  {
    var j := IndexOf(n.indices, rest[0]);
    if n.nType == ParamNode && rest[0] == '/' && |n.children| == 1 then 0
    else if j >= 0 then j
    else if IsMark(rest[0]) && n.wildChild && TokenFits(Last(n.children), rest) then |n.children| - 1
    else -1
  }

  // The node once child `j` has become `r`, moved up if it was found by index.
  function Rejoin(n: Tree, j: nat, moves: bool, r: Result<Tree>): Result<Tree>
    requires j < |n.children| && |n.indices| <= |n.children| && (moves ==> j < |n.indices|)
  {
    if moves then WithChild(IncrementPrio(n, j), NewPos(n, j), r) else WithChild(n, j, r)
  }

  // New children below a node none of whose children the path can enter.
  function Graft(n: Tree, rest: string, full: string, h: Handler, compile: Compiler): Result<Tree>
    requires rest != ""
    requires |n.indices| <= |n.children| && (n.wildChild ==> n.children != [])
  {
    if !IsMark(rest[0]) then AddStatic(n, rest, full, h, compile)
    else if n.wildChild then Panic
    else InsertChild(n, rest, full, h, compile)
  }

  // Registers below `n` a path that `n`'s own text has been taken from.
  function AddBelow(n: Tree, rest: string, full: string, h: Handler, compile: Compiler): Result<Tree>
    requires Shape(n) && rest != ""
    decreases Weight(n), 0
  {
    var j := Chosen(n, rest);
    if j >= 0 then Rejoin(n, j, Moves(n, rest), AddWalk(Entered(n, j), rest, full, h, compile))
    else Graft(n, rest, full, h, compile)
  }

  // Registers one pattern (without optional segments) at the root.
  function AddPattern(root: Tree, pattern: string, h: Handler, compile: Compiler): Result<Tree>
    requires Shape(root)
  {
    var n := Bumped(root);
    var added := if n.path == "" && n.indices == ""
                 then match InsertChild(n, pattern, pattern, h, compile)
                      case Ok(t) => Ok(t.(nType := RootNode))
                      case Panic => Panic
                 else AddWalk(n, pattern, pattern, h, compile);
    match added
    case Ok(t) => Ok(t.(maxParams := RaisedMax(root.maxParams, CountParams(pattern))))
    case Panic => Panic
  }

  function RaisedMax(maxParams: nat, count: nat): nat {
    if count <= maxParams then maxParams
    else if count > MAX_PARAMS_LIMIT then MAX_PARAMS_LIMIT else count
  }

  // ---- Every registration keeps the shape ----

  predicate ShapeOk(r: Result<Tree>) { r.Ok? ==> Shape(r.value) }

  lemma {:induction false} InsertShape(n: Tree, path: string, full: string, h: Handler, compile: Compiler)
    requires Shape(n)
    ensures ShapeOk(InsertChild(n, path, full, h, compile))
    decreases |path|, 2
  {
    var w := FindWild(path);
    if w.start >= 0 && w.valid && |w.token| >= 2 {
      var m := TextBefore(n, path, w.start);
      var rest := path[w.start..];
      if w.token[0] == ':' {
        InsertParamShape(m, EMPTY_TREE.(nType := ParamNode, path := w.token), rest, full, h, compile);
      } else if w.token[0] == '{' {
        InsertRegexShape(m, w.token, rest, full, h, compile);
      }
    }
  }

  lemma {:induction false} InsertRegexShape(n: Tree, token: string, path: string, full: string, h: Handler, compile: Compiler)
    requires Shape(n) && 2 <= |token| <= |path| && token[0] == '{' && Last(token) == '}'
    ensures ShapeOk(InsertRegex(n, token, path, full, h, compile))
    decreases |path|, 1
  {
    var colon := IndexOf(token[1..], ':');
    if colon >= 0 {
      var re := compile(token[2 + colon..|token| - 1]);
      InsertParamShape(n, EMPTY_TREE.(nType := RegexNode, path := token, regexp := re, nameEnd := 1 + colon),
                       path, full, h, compile);
    }
  }

  lemma {:induction false} InsertParamShape(n: Tree, child: Tree, path: string, full: string, h: Handler, compile: Compiler)
    requires Shape(n) && Shape(child) && child.indices == "" && !child.wildChild && 2 <= |child.path| <= |path|
    ensures ShapeOk(InsertParam(n, child, path, full, h, compile))
    decreases |path|, 0
  {
    if |child.path| < |path| {
      InsertShape(EMPTY_TREE.(priority := 1), path[|child.path|..], full, h, compile);
    }
  }

  lemma RejoinShape(n: Tree, j: nat, moves: bool, r: Result<Tree>)
    requires Shape(n) && j < |n.children| && ShapeOk(r) && (moves ==> j < |n.indices|)
    ensures ShapeOk(Rejoin(n, j, moves, r))
  {
    if moves {
      var k := IncrementPrio(n, j);
      forall i | 0 <= i < |k.children| ensures Shape(k.children[i]) {
        assert k.children[i] == n.children[j := Bumped(n.children[j])][MovedFrom(j, NewPos(n, j), i)];
      }
    }
  }

  lemma GraftShape(n: Tree, rest: string, full: string, h: Handler, compile: Compiler)
    requires Shape(n) && rest != ""
    ensures ShapeOk(Graft(n, rest, full, h, compile))
  {
    if IsMark(rest[0]) {
      InsertShape(n, rest, full, h, compile);
    } else if !(n.wildChild && Last(n.children).nType == WildcardNode) {
      var m := AppendStatic(n, rest[0]);
      forall i | 0 <= i < |m.children| ensures Shape(m.children[i]) {
        assert m.children[i] == EMPTY_TREE || exists j | 0 <= j < |n.children| :: m.children[i] == n.children[j];
      }
      var k, np := IncrementPrio(m, |n.indices|), NewPos(m, |n.indices|);
      assert k.children[np] == Bumped(m.children[|n.indices|]);
      InsertShape(k.children[np], rest, full, h, compile);
      RejoinShape(m, |n.indices|, true, InsertChild(k.children[np], rest, full, h, compile));
    }
  }

  lemma {:induction false} WalkShape(n: Tree, path: string, full: string, h: Handler, compile: Compiler)
    requires Shape(n)
    ensures ShapeOk(AddWalk(n, path, full, h, compile))
    decreases Weight(n), 1
  {
    var i := CommonPrefix(path, n.path);
    if i < |n.path| {
      SplitShape(n, i);
      var m := SplitAt(n, i);
      if i < |path| {
        if n.nType == ParamNode && path[i] == '/' {
          WalkShape(Entered(m, 0), path[i..], full, h, compile);
          RejoinShape(m, 0, false, AddWalk(Entered(m, 0), path[i..], full, h, compile));
        } else {
          GraftShape(m, path[i..], full, h, compile);
        }
      }
    } else if i < |path| {
      BelowShape(n, path[i..], full, h, compile);
    }
  }

  lemma {:induction false} BelowShape(n: Tree, rest: string, full: string, h: Handler, compile: Compiler)
    requires Shape(n) && rest != ""
    ensures ShapeOk(AddBelow(n, rest, full, h, compile))
    decreases Weight(n), 0
  {
    var j := Chosen(n, rest);
    if j >= 0 {
      WalkShape(Entered(n, j), rest, full, h, compile);
      RejoinShape(n, j, Moves(n, rest), AddWalk(Entered(n, j), rest, full, h, compile));
    } else {
      GraftShape(n, rest, full, h, compile);
    }
  }

  // Whatever pattern is registered, the next registration finds a tree it can
  // walk.
  lemma PatternShape(root: Tree, pattern: string, h: Handler, compile: Compiler)
    requires Shape(root)
    ensures ShapeOk(AddPattern(root, pattern, h, compile))
  {
    var n := Bumped(root);
    InsertShape(n, pattern, pattern, h, compile);
    WalkShape(n, pattern, pattern, h, compile);
  }
}
