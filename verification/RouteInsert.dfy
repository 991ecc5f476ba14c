// Registration in place: the walk down the tree, the split of a node, and the
// nodes for what the tree does not share yet.
module RouteInsert {
  import opened Wrappers
  import opened Patterns
  import opened RouteTree
  import opened PathScan
  import opened RouteNode

  // ---- The nodes above the one being worked on ----

  // The value of such a node, and the index of the child the walk went into.
  datatype Frame = Frame(tree: Tree, hole: nat)

  ghost predicate FramesOk(frames: seq<Frame>) {
    forall k | 0 <= k < |frames| :: frames[k].hole < |frames[k].tree.children|
  }

  // The whole tree, once the result at the bottom is put into every hole.
  ghost function Plug(frames: seq<Frame>, r: Result<Tree>): Result<Tree>
    requires FramesOk(frames)
    decreases |frames|
  {
    if frames == [] then r
    else Plug(frames[..|frames| - 1], WithChild(Last(frames).tree, Last(frames).hole, r))
  }

  // The way from the first node of a walk down to the parent of the current
  // one: nodes, their arrays, their frames, and what of the heap is finished.
  datatype Walk = Walk(nodes: seq<Node>, arrays: seq<array<Node>>, frames: seq<Frame>, fp: set<object>)

  const NO_STEPS := Walk([], [], [], {})

  function Top(w: Walk, n: Node): Node { if w.nodes == [] then n else w.nodes[0] }

  function Down(w: Walk, n: Node, a: array<Node>, f: Frame): Walk {
    Walk(w.nodes + [n], w.arrays + [a], w.frames + [f], w.fp)
  }

  function Next(w: Walk, n: Node, k: nat): Node
    requires k < |w.nodes|
  {
    if k + 1 < |w.nodes| then w.nodes[k + 1] else n
  }

  // A node of the way holds its frame's value, with `next` in the hole.
  ghost predicate Link(n: Node, a: array<Node>, f: Frame, next: Node, fp: set<object>)
    reads n, a, fp
  {
    n.children == a && Holed(n, f.tree, f.hole, fp) && a[f.hole] == next
  }

  ghost predicate Spine(w: Walk, n: Node)
    reads w.nodes, w.arrays, w.fp
  {
    && |w.nodes| == |w.frames| == |w.arrays| && FramesOk(w.frames)
    && (forall i, j | 0 <= i < j < |w.nodes| :: w.nodes[i] != w.nodes[j] && w.arrays[i] != w.arrays[j])
    && forall k | 0 <= k < |w.nodes| :: Link(w.nodes[k], w.arrays[k], w.frames[k], Next(w, n, k), w.fp)
  }

  // Where a walk stands: `n` holds `t`, and above it is the spine.
  ghost predicate Stands(w: Walk, n: Node, t: Tree)
    reads w.nodes, w.arrays, w.fp, n, n.children
  {
    Spine(w, n) && n !in w.nodes && n.children !in w.arrays && Own(n, t, w.fp)
  }

  // More of the heap is finished.
  lemma SpineMore(w: Walk, n: Node, more: set<object>)
    requires Spine(w, n) && w.fp <= more
    requires forall k | 0 <= k < |w.nodes| :: w.nodes[k] !in more && w.arrays[k] !in more
    ensures Spine(w.(fp := more), n)
  {
    var v := w.(fp := more);
    forall k | 0 <= k < |w.nodes| ensures Link(v.nodes[k], v.arrays[k], v.frames[k], Next(v, n, k), more) {
      assert Link(w.nodes[k], w.arrays[k], w.frames[k], Next(w, n, k), w.fp);
      HoledMore(w.nodes[k], w.frames[k].tree, w.frames[k].hole, w.fp, more);
    }
  }

  // The walk goes one node down, into the hole of `n`.
  lemma StandsDown(w: Walk, n: Node, f: Frame, c: Node, t: Tree)
    requires Spine(w, n) && n !in w.nodes && n.children !in w.arrays && f.hole < |f.tree.children|
    requires Link(n, n.children, f, c, w.fp)
    requires c !in w.nodes && c.children !in w.arrays && c != n && c.children != n.children && Own(c, t, w.fp)
    ensures Stands(Down(w, n, n.children, f), c, t)
  {
    var v := Down(w, n, n.children, f);
    forall k | 0 <= k < |v.nodes| ensures Link(v.nodes[k], v.arrays[k], v.frames[k], Next(v, c, k), v.fp) {
      if k < |w.nodes| { assert Link(w.nodes[k], w.arrays[k], w.frames[k], Next(w, n, k), w.fp); }
    }
  }

  function Up(w: Walk): Walk
    requires |w.nodes| == |w.frames| == |w.arrays| > 0
  {
    var k := |w.nodes| - 1;
    Walk(w.nodes[..k], w.arrays[..k], w.frames[..k], w.fp)
  }

  lemma SpineUp(w: Walk, n: Node)
    requires Spine(w, n) && w.nodes != []
    ensures Spine(Up(w), Last(w.nodes)) && Link(Last(w.nodes), Last(w.arrays), Last(w.frames), n, w.fp)
    ensures Last(w.nodes) !in Up(w).nodes && Last(w.arrays) !in Up(w).arrays
  {
    LinkLast(w, n);
    forall k | 0 <= k < |w.nodes| - 1
      ensures Link(Up(w).nodes[k], Up(w).arrays[k], Up(w).frames[k], Next(Up(w), Last(w.nodes), k), w.fp)
    {
      LinkUp(w, n, k);
    }
    hide Link, Next;
  }

  lemma LinkLast(w: Walk, n: Node)
    requires Spine(w, n) && w.nodes != []
    ensures Link(Last(w.nodes), Last(w.arrays), Last(w.frames), n, w.fp)
  {
    hide Link;
    var k := |w.nodes| - 1;
    assert Link(w.nodes[k], w.arrays[k], w.frames[k], Next(w, n, k), w.fp);
  }

  lemma LinkUp(w: Walk, n: Node, k: nat)
    requires Spine(w, n) && k + 1 < |w.nodes|
    ensures Link(Up(w).nodes[k], Up(w).arrays[k], Up(w).frames[k], Next(Up(w), Last(w.nodes), k), w.fp)
  {
    NextUp(w, n, k);
    assert Link(w.nodes[k], w.arrays[k], w.frames[k], Next(w, n, k), w.fp);
    hide *;
  }

  lemma NextUp(w: Walk, n: Node, k: nat)
    requires |w.nodes| == |w.frames| == |w.arrays| && k + 1 < |w.nodes|
    ensures Next(Up(w), Last(w.nodes), k) == Next(w, n, k)
    ensures Up(w).nodes[k] == w.nodes[k] && Up(w).arrays[k] == w.arrays[k] && Up(w).frames[k] == w.frames[k]
  {
  }

  // The nodes a walk has passed, but for the first, and their arrays.
  function Passed(w: Walk): set<object>
    requires |w.nodes| == |w.arrays|
  {
    if w.nodes == [] then {} else (set x | x in w.nodes[1..]) + (set x | x in w.arrays[1..])
  }

  // What of the heap a finished walk adds: all its nodes but the first.
  function Made(w: Walk, n: Node, a: array<Node>): set<object>
    requires |w.nodes| == |w.arrays|
  {
    Passed(w) + (if w.nodes == [] then {} else {n, a})
  }

  lemma PassedDown(w: Walk, n: Node, a: array<Node>, f: Frame)
    requires |w.nodes| == |w.arrays|
    ensures Passed(Down(w, n, a, f)) == Made(w, n, a)
  {
    if w.nodes != [] {
      assert (w.nodes + [n])[1..] == w.nodes[1..] + [n] && (w.arrays + [a])[1..] == w.arrays[1..] + [a];
    }
  }

  lemma PassedNothing(w: Walk)
    requires |w.nodes| == |w.arrays|
    ensures w.nodes == [] ==> Passed(w) == {}
  {
  }

  lemma MadeUp(w: Walk, n: Node, a: array<Node>)
    requires |w.nodes| == |w.frames| == |w.arrays| > 0
    ensures Made(Up(w), Last(w.nodes), Last(w.arrays)) + {n, a} <= Made(w, n, a)
  {
    var k := |w.nodes| - 1;
    if k > 0 {
      assert Last(w.nodes) == w.nodes[1..][k - 1] && Last(w.arrays) == w.arrays[1..][k - 1];
      assert forall x | x in w.nodes[..k][1..] :: x in w.nodes[1..];
      assert forall x | x in w.arrays[..k][1..] :: x in w.arrays[1..];
    }
  }

  // The finished bottom makes every node of the spine whole.
  lemma {:induction false} Fold(w: Walk, n: Node, x: Tree) returns (more: set<object>)
    requires Stands(w, n, x)
    ensures w.fp <= more <= w.fp + Made(w, n, n.children)
    ensures FramesOk(w.frames) && Plug(w.frames, Ok(x)).Ok?
    ensures Own(Top(w, n), Plug(w.frames, Ok(x)).value, more)
    decreases |w.frames|
  {
    if w.frames == [] {
      more := w.fp;
    } else {
      var s, f := Last(w.nodes), Last(w.frames);
      var done := w.fp + {n, n.children};
      OwnRep(n, x, w.fp);
      forall k | 0 <= k < |w.nodes| ensures w.nodes[k] !in done && w.arrays[k] !in done {
        assert Link(w.nodes[k], w.arrays[k], w.frames[k], Next(w, n, k), w.fp);
      }
      SpineMore(w, n, done);
      SpineUp(w.(fp := done), n);
      MadeUp(w.(fp := done), n, n.children);
      Fill(s, f.tree, f.hole, x, done);
      more := Fold(Up(w.(fp := done)), s, f.tree.(children := f.tree.children[f.hole := x]));
    }
  }

  // ---- Nodes the tree does not have yet ----

  // `child` becomes the wildcard child of `n`, counted once.
  method AttachWild(n: Node, child: Node, ghost t: Tree, ghost c: Tree, ghost fp: set<object>)
    requires Own(n, t, fp) && Own(child, c, fp) && child != n && child.children != n.children
    modifies n`children, n`wildChild, child`priority
    ensures fresh(n.children)
    ensures Holed(n, t.(children := t.children + [EMPTY_TREE], wildChild := true), |t.children|, fp)
    ensures n.children[|t.children|] == child && Own(child, Bumped(c), fp)
  {
    hide Rep, RepAll;
    RepAllLength(n.children[..], t.children, fp);
    n.children := Append(n.children, child);
    n.wildChild := true;
    child.priority := Bump(child.priority);
    AppendedHole(old(n.children[..]), t.children, child, EMPTY_TREE, fp);
  }

  lemma RepAllLength(ns: seq<Node>, ts: seq<Tree>, fp: set<object>)
    requires RepAll(ns, ts, fp)
    ensures |ns| == |ts|
  {
  }

  lemma AppendedHole(ns: seq<Node>, ts: seq<Tree>, n: Node, t: Tree, fp: set<object>)
    requires RepAll(ns, ts, fp)
    ensures RepAllBut(ns + [n], ts + [t], |ts|, fp)
  {
    forall i | 0 <= i < |ts| ensures Rep((ns + [n])[i], (ts + [t])[i], fp) {
      assert Rep(ns[i], ts[i], fp);
    }
  }

  // The node for what follows a wildcard token.
  method AttachNext(n: Node, ghost t: Tree, ghost fp: set<object>) returns (next: Node)
    requires Own(n, t, fp) && t.children == []
    modifies n`children
    ensures fresh(next) && fresh(next.children) && fresh(n.children) && n.children != next.children
    ensures Own(next, EMPTY_TREE.(priority := 1), fp)
    ensures Holed(n, t.(children := [EMPTY_TREE]), 0, fp) && n.children[0] == next
  {
    var none := new Node[0];
    next := new Node("", StaticNode, none);
    next.priority := 1;
    n.children := One(next);
  }

  method NewLeaf(path: string, full: string, h: Handler) returns (leaf: Node)
    ensures fresh(leaf) && fresh(leaf.children)
    ensures Rep(leaf, CatchAllLeaf(path, full, h), {leaf, leaf.children})
  {
    var none := new Node[0];
    leaf := new Node(path, WildcardNode, none);
    leaf.route, leaf.pattern, leaf.priority := Some(h), full, 1;
  }

  method NewCatchAll(path: string, full: string, h: Handler) returns (catchAll: Node, ghost made: set<object>)
    ensures fresh(made) && Rep(catchAll, CatchAllNode(CatchAllLeaf(path, full, h)), made)
  {
    var leaf := NewLeaf(path, full, h);
    var below := One(leaf);
    catchAll := new Node("", StaticNode, below);
    catchAll.wildChild := true;
    catchAll.priority := Bump(catchAll.priority);
    made := {leaf, leaf.children, catchAll, below};
    RepMore(leaf, CatchAllLeaf(path, full, h), {leaf, leaf.children}, made);
  }

  // A catch-all hangs on a node of its own below `n`.
  function CatchAllTree(t: Tree, path: string, start: nat, full: string, h: Handler): Tree
    requires 0 < start <= |path|
  {
    t.(path := path[..start - 1], indices := "/", children := [CatchAllNode(CatchAllLeaf(path[start - 1..], full, h))])
  }

  method AttachCatchAll(n: Node, path: string, start: nat, full: string, h: Handler, ghost t: Tree, ghost fp: set<object>)
    returns (ghost more: set<object>)
    requires Own(n, t, fp) && 0 < start <= |path|
    modifies n`path, n`children, n`indices
    ensures fp <= more && fresh(more - fp) && fresh(n.children)
    ensures Own(n, CatchAllTree(t, path, start, full, h), more)
  {
    hide Rep;
    var catchAll, made := NewCatchAll(path[start - 1..], full, h);
    n.path := path[..start - 1];
    n.children := One(catchAll);
    n.indices := "/";
    more := fp + made;
    RepMore(catchAll, CatchAllNode(CatchAllLeaf(path[start - 1..], full, h)), made, more);
  }

  method SetHandler(n: Node, full: string, h: Handler, ghost t: Tree, ghost fp: set<object>)
    requires Own(n, t, fp)
    modifies n`route, n`pattern
    ensures Own(n, SetRoute(t, full, h), fp)
  {
    n.route, n.pattern := Some(h), full;
  }

  // ---- insertChild ----

  lemma PlugOne(frames: seq<Frame>, f: Frame, r: Result<Tree>)
    requires FramesOk(frames) && f.hole < |f.tree.children|
    ensures FramesOk(frames + [f]) && Plug(frames + [f], r) == Plug(frames, WithChild(f.tree, f.hole, r))
  {
    assert (frames + [f])[..|frames|] == frames;
  }

  function WildFrame(t: Tree): Frame {
    Frame(t.(children := t.children + [EMPTY_TREE], wildChild := true), |t.children|)
  }

  function NextFrame(t: Tree): Frame { Frame(t.(children := [EMPTY_TREE]), 0) }

  lemma WildFramePlugs(t: Tree, c: Tree)
    ensures var f := WildFrame(t);
            WithChild(f.tree, f.hole, Ok(c)) == Ok(t.(children := t.children + [c], wildChild := true))
  {
    assert (t.children + [EMPTY_TREE])[|t.children| := c] == t.children + [c];
  }

  lemma NextFramePlugs(t: Tree, c: Tree)
    ensures var f := NextFrame(t); WithChild(f.tree, f.hole, Ok(c)) == Ok(t.(children := [c]))
  {
    assert [EMPTY_TREE][0 := c] == [c];
  }

  // One round of the loop: the token's node, and the node for what follows.
  lemma ParamPlugs(frames: seq<Frame>, t: Tree, child: Tree, path: string, full: string, h: Handler, compile: Compiler)
    requires FramesOk(frames) && 2 <= |child.path| < |path|
    ensures var fs := frames + [WildFrame(t)] + [NextFrame(Bumped(child))];
            && FramesOk(fs)
            && Plug(frames, InsertParam(t, child, path, full, h, compile))
            == Plug(fs, InsertChild(EMPTY_TREE.(priority := 1), path[|child.path|..], full, h, compile))
  {
    var f, g := WildFrame(t), NextFrame(Bumped(child));
    var r := InsertChild(EMPTY_TREE.(priority := 1), path[|child.path|..], full, h, compile);
    PlugOne(frames + [f], g, r);
    PlugOne(frames, f, WithChild(g.tree, g.hole, r));
    if r.Ok? {
      NextFramePlugs(Bumped(child), r.value);
      WildFramePlugs(t, Bumped(child).(children := [r.value]));
    }
  }

  // The node for a wildcard token, not yet in the tree.
  method NewParam(token: string, nType: NodeType, re: Option<Regexp>, nameEnd: nat, ghost fp: set<object>)
    returns (child: Node)
    ensures fresh(child) && fresh(child.children)
    ensures Own(child, EMPTY_TREE.(nType := nType, path := token, regexp := re, nameEnd := nameEnd), fp)
  {
    var none := new Node[0];
    child := new Node(token, nType, none);
    child.regexp, child.nameEnd := re, nameEnd;
  }

  // The compiled expression of a `{name:expr}` token and the end of its name.
  method ParseRegex(token: string, compile: Compiler) returns (re: Option<Regexp>, nameEnd: nat)
    requires 2 <= |token| && token[0] == '{' && Last(token) == '}'
    ensures var colon := IndexOf(token[1..], ':');
            if colon < 0 then re.None?
            else
              var compiled := compile(token[2 + colon..|token| - 1]);
              if compiled.None? || 1 + colon > MAX_NAME_END then re.None?
              else re == compiled && nameEnd == 1 + colon
  {
    re, nameEnd := None, 0;
    var colon := IndexByte(token[1..], ':');
    if colon >= 0 {
      assert token[1 + colon] == ':';
      re := compile(token[2 + colon..|token| - 1]);
      nameEnd := 1 + colon;
      if nameEnd > MAX_NAME_END {
        re := None;
      }
    }
  }

  // Adds the node for a wildcard token below `n`, and goes on to it.
  method EnterToken(n: Node, token: string, nType: NodeType, re: Option<Regexp>, nameEnd: nat, ghost w: Walk, ghost t: Tree)
    returns (child: Node)
    requires Stands(w, n, t)
    modifies n`children, n`wildChild
    ensures fresh(n.children) && fresh(child) && fresh(child.children)
    ensures Stands(Down(w, n, n.children, WildFrame(t)), child, Bumped(TokenTree(token, nType, re, nameEnd)))
  {
    hide Rep, RepAll;
    child := NewParam(token, nType, re, nameEnd, w.fp);
    AttachWild(n, child, t, TokenTree(token, nType, re, nameEnd), w.fp);
    StandsDown(w, n, WildFrame(t), child, Bumped(TokenTree(token, nType, re, nameEnd)));
  }

  // Adds the node for what follows the token, and goes on to it.
  method EnterNext(child: Node, ghost w: Walk, ghost c: Tree) returns (next: Node)
    requires Stands(w, child, c) && c.children == []
    modifies child`children
    ensures fresh(next) && fresh(next.children) && fresh(child.children)
    ensures Stands(Down(w, child, child.children, NextFrame(c)), next, EMPTY_TREE.(priority := 1))
  {
    hide Rep, RepAll;
    next := AttachNext(child, c, w.fp);
    StandsDown(w, child, NextFrame(c), next, EMPTY_TREE.(priority := 1));
  }

  function TokenTree(token: string, nType: NodeType, re: Option<Regexp>, nameEnd: nat): Tree {
    EMPTY_TREE.(nType := nType, path := token, regexp := re, nameEnd := nameEnd)
  }

  // The insertion the walk still owes, seen from the whole tree.
  ghost predicate Owes(frames: seq<Frame>, goal: Result<Tree>, rest: Result<Tree>) {
    FramesOk(frames) && goal == Plug(frames, rest)
  }

  lemma {:induction false} PlugPanic(frames: seq<Frame>)
    requires FramesOk(frames)
    ensures Plug(frames, Panic).Panic?
    decreases |frames|
  {
    if frames != [] { PlugPanic(frames[..|frames| - 1]); }
  }

  // The end of a walk: what it leaves at the bottom settles the whole tree.
  lemma Finish(w: Walk, n: Node, x: Tree, goal: Result<Tree>) returns (more: set<object>)
    requires Stands(w, n, x) && Owes(w.frames, goal, Ok(x))
    ensures goal.Ok? && w.fp <= more <= w.fp + Made(w, n, n.children) && Own(Top(w, n), goal.value, more)
  {
    more := Fold(w, n, x);
  }

  // The kind of the node for a token, and what its expression compiles to;
  // `fits` is false for a malformed regular expression token.
  method KindOfToken(token: string, compile: Compiler) returns (fits: bool, nType: NodeType, re: Option<Regexp>, nameEnd: nat)
    requires 2 <= |token| && (token[0] == '{' ==> Last(token) == '}')
    ensures forall t, path, full, h | token <= path ::
              InsertToken(t, token, path, full, h, compile) ==
              if fits then InsertParam(t, TokenTree(token, nType, re, nameEnd), path, full, h, compile) else Panic
  {
    hide InsertParam;
    if token[0] == '{' {
      re, nameEnd := ParseRegex(token, compile);
      return re.Some?, RegexNode, re, nameEnd;
    }
    return true, ParamNode, None, 0;
  }

  // The value side: a named or a regular expression token.
  function InsertToken(t: Tree, token: string, path: string, full: string, h: Handler, compile: Compiler): Result<Tree>
    requires 2 <= |token| && token <= path && (token[0] == '{' ==> Last(token) == '}')
  {
    if token[0] == '{' then InsertRegex(t, token, path, full, h, compile)
    else InsertParam(t, EMPTY_TREE.(nType := ParamNode, path := token), path, full, h, compile)
  }

  // What InsertChild does with a named or regular expression token.
  lemma InsertChildToken(t: Tree, path: string, full: string, h: Handler, compile: Compiler)
    requires var w := FindWild(path); w.start >= 0 && w.valid && |w.token| >= 2 && w.token[0] != '*'
    ensures var w := FindWild(path);
            && w.token <= path[w.start..]
            && InsertChild(t, path, full, h, compile)
            == InsertToken(TextBefore(t, path, w.start), w.token, path[w.start..], full, h, compile)
  {
    hide InsertParam, InsertRegex;
    var w := FindWild(path);
    assert path[w.start..][..|w.token|] == w.token;
    assert IsMark(w.token[0]);
  }

  lemma InsertChildEnds(t: Tree, path: string, full: string, h: Handler, compile: Compiler)
    ensures var w := FindWild(path);
            && (w.start < 0 ==> InsertChild(t, path, full, h, compile) == Ok(SetRoute(t.(path := path), full, h)))
            && (w.start >= 0 && (!w.valid || |w.token| < 2) ==> InsertChild(t, path, full, h, compile) == Panic)
  {
    hide InsertParam, InsertRegex, InsertCatchAll;
  }

  lemma InsertChildCatchAll(t: Tree, path: string, full: string, h: Handler, compile: Compiler)
    requires var w := FindWild(path); w.start >= 0 && w.valid && |w.token| >= 2 && w.token[0] == '*'
    ensures var w := FindWild(path);
            InsertChild(t, path, full, h, compile) == InsertCatchAll(t, path, w.start, |w.token|, full, h)
  {
    hide InsertParam, InsertRegex, InsertCatchAll;
  }

  // The debt, as the loop pays it off.
  lemma OwesEnd(frames: seq<Frame>, goal: Result<Tree>, t: Tree, child: Tree, path: string, full: string, h: Handler, compile: Compiler)
    requires 2 <= |child.path| == |path| && Owes(frames, goal, InsertParam(t, child, path, full, h, compile))
    ensures Owes(frames + [WildFrame(t)], goal, Ok(SetRoute(Bumped(child), full, h)))
  {
    PlugOne(frames, WildFrame(t), Ok(SetRoute(Bumped(child), full, h)));
    WildFramePlugs(t, SetRoute(Bumped(child), full, h));
  }

  lemma OwesNext(frames: seq<Frame>, goal: Result<Tree>, t: Tree, child: Tree, path: string, full: string, h: Handler, compile: Compiler)
    requires 2 <= |child.path| < |path| && Owes(frames, goal, InsertParam(t, child, path, full, h, compile))
    ensures Owes(frames + [WildFrame(t)] + [NextFrame(Bumped(child))], goal,
                 InsertChild(EMPTY_TREE.(priority := 1), path[|child.path|..], full, h, compile))
  {
    ParamPlugs(frames, t, child, path, full, h, compile);
  }

  lemma OwesPanic(frames: seq<Frame>, goal: Result<Tree>)
    requires Owes(frames, goal, Panic)
    ensures goal.Panic?
  {
    PlugPanic(frames);
  }

  method SetPath(n: Node, path: string, ghost w: Walk, ghost t: Tree)
    requires Stands(w, n, t)
    modifies n`path
    ensures Stands(w, n, t.(path := path))
  {
    hide Rep, RepAll, Spine;
    n.path := path;
  }

  // The handler is set where the walk stands, which ends it.
  method EndHere(n: Node, full: string, h: Handler, ghost w: Walk, ghost t: Tree, ghost goal: Result<Tree>)
    returns (ghost more: set<object>)
    requires Stands(w, n, t) && Owes(w.frames, goal, Ok(SetRoute(t, full, h)))
    modifies n`route, n`pattern
    ensures goal.Ok? && Own(Top(w, n), goal.value, more)
    ensures w.fp <= more <= w.fp + Made(w, n, n.children)
  {
    hide Rep, RepAll, Spine, Plug;
    SetHandler(n, full, h, t, w.fp);
    more := Finish(w, n, SetRoute(t, full, h), goal);
  }

  lemma CatchAllFits(t: Tree, path: string, start: nat, size: nat, full: string, h: Handler)
    requires 0 < start <= |path| && start + size == |path| && path[start - 1] == '/'
    requires t.path == "" || Last(t.path) != '/'
    ensures InsertCatchAll(t, path, start, size, full, h)
         == Ok(CatchAllTree(t, path, start, full, h))
  {
  }

  // The catch-all case ends the walk one way or the other.
  method EndWithCatchAll(n: Node, path: string, start: nat, size: nat, full: string, h: Handler,
                         ghost w: Walk, ghost t: Tree, ghost goal: Result<Tree>)
    returns (ok: bool, ghost more: set<object>)
    requires Stands(w, n, t) && start <= |path|
    requires Owes(w.frames, goal, InsertCatchAll(t, path, start, size, full, h))
    modifies n
    ensures n.children == old(n.children) || fresh(n.children)
    ensures ok == goal.Ok? && (ok ==> w.fp <= more && Own(Top(w, n), goal.value, more))
    ensures fresh(more - w.fp - Passed(w) - {n, n.children}) && (w.nodes == [] ==> fresh(more - w.fp))
  {
    more := w.fp;
    if start + size != |path| || (n.path != "" && Last(n.path) == '/') || start == 0 || path[start - 1] != '/' {
      PlugPanic(w.frames);
      return false, more;
    }
    CatchAllFits(t, path, start, size, full, h);
    hide *;
    more := FinishCatchAll(n, path, start, full, h, w, t, goal);
    ok := true;
  }

  method FinishCatchAll(n: Node, path: string, start: nat, full: string, h: Handler,
                        ghost w: Walk, ghost t: Tree, ghost goal: Result<Tree>)
    returns (ghost more: set<object>)
    requires Stands(w, n, t) && 0 < start <= |path|
    requires Owes(w.frames, goal, Ok(CatchAllTree(t, path, start, full, h)))
    modifies n
    ensures fresh(n.children) && goal.Ok? && w.fp <= more && Own(Top(w, n), goal.value, more)
    ensures fresh(more - w.fp - Passed(w) - {n, n.children}) && (w.nodes == [] ==> fresh(more - w.fp))
  {
    StandsParts(w, n, t);
    hide *;
    ghost var done := AttachCatchAll(n, path, start, full, h, t, w.fp);
    more := FinishMore(w, n, done, CatchAllTree(t, path, start, full, h), goal);
  }

  lemma StandsParts(w: Walk, n: Node, t: Tree)
    requires Stands(w, n, t)
    ensures |w.nodes| == |w.arrays| == |w.frames|
    ensures Spine(w, n) && Own(n, t, w.fp) && n !in w.nodes && n.children !in w.arrays && n !in w.fp && n.children !in w.fp
  {
  }

  // The end of a walk when what is finished has grown.
  lemma FinishMore(w: Walk, n: Node, done: set<object>, x: Tree, goal: Result<Tree>) returns (more: set<object>)
    requires Spine(w, n) && n !in w.nodes && n.children !in w.arrays && |w.nodes| == |w.arrays|
    requires Own(n, x, done) && Owes(w.frames, goal, Ok(x)) && w.fp <= done
    requires forall k | 0 <= k < |w.nodes| :: w.nodes[k] !in done - w.fp && w.arrays[k] !in done - w.fp
    ensures goal.Ok? && done <= more && Own(Top(w, n), goal.value, more)
    ensures more <= done + Passed(w) + {n, n.children} && (w.nodes == [] ==> more <= done)
  {
    hide Rep, RepAll, Plug, Owes, Own;
    MoreSpine(w, n, done);
    hide Spine, Top, Made, Passed;
    more := Finish(w.(fp := done), n, x, goal);
    WalkMore(w, n, n.children, done);
  }

  // A spine stays one when what is finished grows by nodes not on it.
  lemma MoreSpine(w: Walk, n: Node, more: set<object>)
    requires Spine(w, n) && w.fp <= more && |w.nodes| == |w.arrays|
    requires forall k | 0 <= k < |w.nodes| :: w.nodes[k] !in more - w.fp && w.arrays[k] !in more - w.fp
    ensures Spine(w.(fp := more), n)
  {
    forall k | 0 <= k < |w.nodes| ensures w.nodes[k] !in more && w.arrays[k] !in more {
      assert Link(w.nodes[k], w.arrays[k], w.frames[k], Next(w, n, k), w.fp);
    }
    SpineMore(w, n, more);
  }

  // What a walk has passed does not depend on what is finished.
  lemma WalkMore(w: Walk, n: Node, a: array<Node>, fp: set<object>)
    requires |w.nodes| == |w.arrays|
    ensures Top(w.(fp := fp), n) == Top(w, n)
    ensures Made(w.(fp := fp), n, a) <= Passed(w) + {n, a} && (w.nodes == [] ==> Made(w.(fp := fp), n, a) == {})
  {
  }

  datatype Progress = Failed | Done | GoesOn

  // One wildcard token: its node, then either the handler or the node the walk
  // goes on from.
  method TakeToken(n: Node, path: string, token: string, full: string, h: Handler, compile: Compiler,
                   ghost w: Walk, ghost t: Tree, ghost goal: Result<Tree>)
    returns (state: Progress, next: Node, ghost child: Node, ghost v: Walk, ghost more: set<object>)
    requires 2 <= |token| && token <= path && (token[0] == '{' ==> Last(token) == '}')
    requires Stands(w, n, t) && Owes(w.frames, goal, InsertToken(t, token, path, full, h, compile))
    requires |w.nodes| == |w.arrays|
    modifies n`children, n`wildChild
    ensures n.children == old(n.children) || fresh(n.children)
    ensures state.Failed? ==> goal.Panic?
    ensures state.Done? ==> goal.Ok? && w.fp <= more && Own(Top(w, n), goal.value, more)
    ensures !state.Failed? ==> fresh(child) && fresh(child.children)
    ensures state.Done? ==> more <= w.fp + Made(w, n, n.children) + {child, child.children}
    ensures state.GoesOn? ==>
              && |token| < |path| && fresh(next) && Top(v, next) == Top(w, n) && v.fp == w.fp
              && fresh(next.children) && |v.nodes| == |v.arrays| > 0
              && Passed(v) == Made(w, n, n.children) + {child, child.children}
              && Stands(v, next, EMPTY_TREE.(priority := 1))
              && Owes(v.frames, goal, InsertChild(EMPTY_TREE.(priority := 1), path[|token|..], full, h, compile))
  {
    hide Rep, RepAll, Own, Stands, Spine, InsertParam, InsertChild, InsertRegex, InsertToken, Owes, Passed;
    next, child, v, more := n, n, w, w.fp;
    var fits, kind, re, nameEnd := KindOfToken(token, compile);
    if !fits {
      OwesPanic(w.frames, goal);
      return Failed, next, child, v, more;
    }
    ghost var c := TokenTree(token, kind, re, nameEnd);
    next := EnterToken(n, token, kind, re, nameEnd, w, t);
    child := next;
    v := Down(w, n, n.children, WildFrame(t));
    PassedDown(w, n, n.children, WildFrame(t));
    PassedNothing(w);
    if |token| == |path| {
      OwesEnd(w.frames, goal, t, c, path, full, h, compile);
      more := EndHere(next, full, h, v, Bumped(c), goal);
      state := Done;
    } else {
      OwesNext(w.frames, goal, t, c, path, full, h, compile);
      next := EnterNext(next, v, Bumped(c));
      PassedDown(v, child, child.children, NextFrame(Bumped(c)));
      v := Down(v, child, child.children, NextFrame(Bumped(c)));
      state := GoesOn;
    }
  }

  // No step taken yet: the whole tree is owed.
  lemma Begin(n: Node, t: Tree, fp: set<object>, goal: Result<Tree>)
    requires Own(n, t, fp)
    ensures Stands(NO_STEPS.(fp := fp), n, t) && Owes(NO_STEPS.frames, goal, goal)
  {
  }

  method InsertChildInPlace(start: Node, pattern: string, full: string, h: Handler, compile: Compiler,
                            ghost t: Tree, ghost fp: set<object>)
    returns (ok: bool, ghost more: set<object>)
    requires Own(start, t, fp)
    modifies start
    ensures start.children == old(start.children) || fresh(start.children)
    ensures var r := InsertChild(t, pattern, full, h, compile);
            ok == r.Ok? && (ok ==> fp <= more && fresh(more - fp) && Own(start, r.value, more))
  {
    hide Rep, RepAll, Own, Stands, Spine, FindWild, InsertParam, InsertCatchAll, InsertRegex, InsertToken, InsertChild, Owes, Passed;
    var n, path := start, pattern;
    ghost var cur, goal := t, InsertChild(t, pattern, full, h, compile);
    ghost var w := NO_STEPS.(fp := fp);
    Begin(start, t, fp, goal);
    PassedNothing(w);
    more := fp;
    while true
      invariant Top(w, n) == start && (n == start || fresh(n)) && w.fp == fp
      invariant start.children == old(start.children) || fresh(start.children)
      invariant Stands(w, n, cur) && |w.nodes| == |w.arrays| && fresh(Passed(w))
      invariant w.nodes != [] ==> fresh(n) && fresh(n.children)
      invariant Owes(w.frames, goal, InsertChild(cur, path, full, h, compile))
      decreases |path|
    {
      var wc := FindWildcard(path);
      InsertChildEnds(cur, path, full, h, compile);
      if wc.start < 0 {
        SetPath(n, path, w, cur);
        more := EndHere(n, full, h, w, cur.(path := path), goal);
        PassedNothing(w);
        return true, more;
      }
      if !wc.valid || |wc.token| < 2 {
        OwesPanic(w.frames, goal);
        return false, more;
      }
      if wc.token[0] == '*' {
        InsertChildCatchAll(cur, path, full, h, compile);
        ok, more := EndWithCatchAll(n, path, wc.start, |wc.token|, full, h, w, cur, goal);
        return;
      }
      InsertChildToken(cur, path, full, h, compile);
      ghost var m := TextBefore(cur, path, wc.start);
      if wc.start > 0 {
        SetPath(n, path[..wc.start], w, cur);
      }
      path := path[wc.start..];
      var state, next, child, v, made := TakeToken(n, path, wc.token, full, h, compile, w, m, goal);
      if state != GoesOn {
        return state == Done, made;
      }
      n, w, cur := next, v, EMPTY_TREE.(priority := 1);
      path := path[|wc.token|..];
    }
  }
}
