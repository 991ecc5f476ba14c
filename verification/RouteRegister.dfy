// Registration in place: the walk from a root that nobody else can see yet.
// Every node it writes to is the root or one of its own copies.
module RouteRegister {
  import opened Wrappers
  import opened Patterns
  import opened RouteTree
  import opened PathScan
  import opened RouteNode
  import opened RouteInsert

  // ---- Splitting a node ----

  // The lower half of a split node takes over its array.
  method NewLowerHalf(n: Node, i: nat, ghost t: Tree, ghost fp: set<object>) returns (child: Node)
    requires Own(n, t, fp) && i < |t.path|
    ensures fresh(child) && child.children == n.children
    ensures Rep(child, SplitAt(t, i).children[0], fp + {child, child.children})
  {
    child := new Node(n.path[i..], StaticNode, n.children);
    child.wildChild, child.indices, child.route := n.wildChild, n.indices, n.route;
    child.priority, child.pattern, child.regexp := Drop(n.priority), n.pattern, n.regexp;
    RepAllMore(child.children[..], t.children, fp, fp + {child, child.children});
  }

  // The upper half keeps the node itself, with `child` below it.
  method KeepUpperHalf(n: Node, i: nat, child: Node, ghost t: Tree, ghost fp: set<object>)
    requires Fields(n, t) && i < |t.path| && n !in fp && Rep(child, SplitAt(t, i).children[0], fp)
    modifies n
    ensures fresh(n.children) && Own(n, SplitAt(t, i), fp)
  {
    hide Rep;
    var only := One(child);
    n.children := only;
    n.indices := [n.path[i]];
    n.path := n.path[..i];
    n.route, n.pattern, n.wildChild := None, "", false;
    OneRep(child, SplitAt(t, i).children[0], fp);
  }

  method Split(n: Node, i: nat, ghost w: Walk, ghost t: Tree) returns (ghost v: Walk)
    requires Stands(w, n, t) && i < |t.path|
    modifies n
    ensures fresh(n.children) && v == w.(fp := v.fp) && Stands(v, n, SplitAt(t, i))
    ensures w.fp <= v.fp
  {
    StandsParts(w, n, t);
    OwnFields(n, t, w.fp);
    hide *;
    var child := NewLowerHalf(n, i, t, w.fp);
    ghost var lower := child.children;
    KeepUpperHalf(n, i, child, t, w.fp + {child, lower});
    v := SpineWith(w, n, child, lower);
    StandsAgain(v, n, SplitAt(t, i));
  }

  lemma OwnFields(n: Node, t: Tree, fp: set<object>)
    requires Own(n, t, fp)
    ensures Fields(n, t)
  {
  }

  // One more node is finished, and the array it has taken over.
  lemma SpineWith(w: Walk, n: Node, child: Node, a: array<Node>) returns (v: Walk)
    requires Spine(w, n) && child !in w.nodes && a !in w.arrays
    ensures v == w.(fp := w.fp + {child, a}) && Spine(v, n) && w.fp <= v.fp
  {
    v := w.(fp := w.fp + {child, a});
    hide Spine;
    SpineSkips(w, n, {child, a});
  }

  lemma StandsAgain(w: Walk, n: Node, t: Tree)
    requires Spine(w, n) && n !in w.nodes && n.children !in w.arrays && Own(n, t, w.fp)
    ensures Stands(w, n, t)
  {
  }

  lemma OneRep(c: Node, t: Tree, fp: set<object>)
    requires Rep(c, t, fp)
    ensures RepAll([c], [t], fp)
  {
  }

  lemma SpineSkips(w: Walk, n: Node, more: set<object>)
    requires Spine(w, n)
    requires forall k | 0 <= k < |w.nodes| :: w.nodes[k] !in more
    requires forall k | 0 <= k < |w.arrays| :: w.arrays[k] !in more
    ensures Spine(w.(fp := w.fp + more), n)
  {
    forall k | 0 <= k < |w.nodes| ensures w.nodes[k] !in w.fp + more && w.arrays[k] !in w.fp + more {
      assert Link(w.nodes[k], w.arrays[k], w.frames[k], Next(w, n, k), w.fp);
    }
    SpineMore(w, n, w.fp + more);
  }

  // ---- Going into a child ----

  // Into a child found by its index, which may move forward for it.
  method DescendStatic(n: Node, j: nat, ghost w: Walk, ghost t: Tree) returns (c: Node)
    requires Stands(w, n, t) && j < |t.indices| <= |t.children|
    modifies n`indices, n.children
    ensures n.children == old(n.children) && fresh(c) && fresh(c.children)
    ensures Stands(Down(w, n, n.children, Frame(IncrementPrio(t, j), NewPos(t, j))), c, Bumped(t.children[j]))
  {
    hide Rep, RepAll, Spine;
    var np := IncrementChildPrio(n, j, t, w.fp);
    c := n.children[np];
    hide Own, IncrementPrio, NewPos;
    StandsDown(w, n, Frame(IncrementPrio(t, j), np), c, Bumped(t.children[j]));
  }

  // Into any other child, which stays where it is.
  method DescendCopy(n: Node, j: nat, ghost w: Walk, ghost t: Tree) returns (c: Node)
    requires Stands(w, n, t) && j < |t.children|
    modifies n.children
    ensures n.children == old(n.children) && fresh(c) && fresh(c.children)
    ensures Stands(Down(w, n, n.children, Frame(t, j)), c, Bumped(t.children[j]))
  {
    hide Rep, Spine;
    ghost var before := n.children[..];
    assert before[j] == n.children[j];
    c := CountedCopy(n.children[j], t.children[j], w.fp);
    n.children[j] := c;
    assert n.children[..] == before[j := c];
    hide Own;
    StandsDown(w, n, Frame(t, j), c, Bumped(t.children[j]));
  }

  // ---- The end of a walk: new nodes below the last one ----

  // A walk from `start` has come to its goal, or panicked as it should.
  ghost predicate Ended(start: Node, goal: Result<Tree>, ok: bool, fp: set<object>, more: set<object>)
    reads start, start.children, more
  {
    ok == goal.Ok? && (ok ==> fp <= more && Own(start, goal.value, more))
  }

  // The new nodes for a path, at the node the walk stands on.
  method InsertHere(n: Node, path: string, full: string, h: Handler, compile: Compiler,
                    ghost w: Walk, ghost t: Tree, ghost goal: Result<Tree>)
    returns (ok: bool, ghost more: set<object>)
    requires Stands(w, n, t) && Owes(w.frames, goal, InsertChild(t, path, full, h, compile))
    requires |w.nodes| == |w.arrays|
    modifies n
    ensures n.children == old(n.children) || fresh(n.children)
    ensures Ended(Top(w, n), goal, ok, w.fp, more)
  {
    StandsParts(w, n, t);
    hide *;
    ok, more := InsertChildInPlace(n, path, full, h, compile, t, w.fp);
    ghost var r := InsertChild(t, path, full, h, compile);
    if !ok {
      OwesPanic(w.frames, goal);
      return false, w.fp;
    }
    more := FinishMore(w, n, more, r.value, goal);
  }

  // Adds an empty static child for first byte `c`, before the wildcard child.
  method AppendChild(n: Node, c: char, ghost t: Tree, ghost fp: set<object>) returns (ghost more: set<object>)
    requires Own(n, t, fp) && (t.wildChild ==> t.children != [])
    modifies n`indices, n`children, n.children
    ensures fresh(n.children) && fp <= more && fresh(more - fp) && Own(n, AppendStatic(t, c), more)
  {
    OwnParts(n, t, fp);
    var child := NewChild();
    more := fp + {child, child.children};
    RepMore(child, EMPTY_TREE, {child, child.children}, more);
    hide *;
    ghost var before := n.children[..];
    n.indices := n.indices + [c];
    n.children := GrowChildren(n.children, n.wildChild, child);
    Appended(n, before, t, child, c, fp, more);
  }

  method NewChild() returns (child: Node)
    ensures fresh(child) && fresh(child.children) && Rep(child, EMPTY_TREE, {child, child.children})
  {
    var none := new Node[0];
    child := new Node("", StaticNode, none);
  }

  lemma OwnParts(n: Node, t: Tree, fp: set<object>)
    requires Own(n, t, fp)
    ensures n !in fp && n.children !in fp && RepAll(n.children[..], t.children, fp) && n.children.Length == |t.children|
    ensures n.indices == t.indices && n.wildChild == t.wildChild
    ensures Fields(n, t)
  {
  }

  // One more child, in front of the wildcard child if there is one.
  method GrowChildren(a: array<Node>, wildChild: bool, child: Node) returns (b: array<Node>)
    requires wildChild ==> a.Length > 0
    modifies a
    ensures fresh(b) && b[..] == WithStatic(old(a[..]), wildChild, child)
  {
    ghost var before := a[..];
    if wildChild {
      var last := a.Length - 1;
      var wild := a[last];
      a[last] := child;
      b := Append(a, wild);
      assert b[..] == before[..last] + [child, wild];
    } else {
      b := Append(a, child);
    }
  }

  function WithStatic<T>(s: seq<T>, wildChild: bool, x: T): seq<T>
    requires wildChild ==> s != []
  {
    if wildChild then s[..|s| - 1] + [x, Last(s)] else s + [x]
  }

  lemma Appended(n: Node, ns: seq<Node>, t: Tree, child: Node, c: char, fp: set<object>, more: set<object>)
    requires RepAll(ns, t.children, fp) && |ns| == |t.children| && fp <= more && Rep(child, EMPTY_TREE, more)
    requires t.wildChild ==> t.children != []
    requires n !in more && n.children !in more && Fields(n, t.(indices := t.indices + [c]))
    requires n.children[..] == WithStatic(ns, t.wildChild, child)
    ensures Own(n, AppendStatic(t, c), more)
  {
    RepAllMore(ns, t.children, fp, more);
    hide Rep;
    var s := WithStatic(ns, t.wildChild, child);
    var ts := AppendStatic(t, c).children;
    forall i | 0 <= i < |ts| ensures Rep(s[i], ts[i], more) {
      assert i < |t.children| ==> Rep(ns[i], t.children[i], more);
    }
  }

  method HasCatchAll(n: Node, ghost t: Tree, ghost fp: set<object>) returns (yes: bool)
    requires Own(n, t, fp) && (t.wildChild ==> t.children != [])
    ensures yes == (t.wildChild && Last(t.children).nType == WildcardNode)
  {
    yes := n.wildChild;
    if yes {
      assert Rep(n.children[..][|t.children| - 1], Last(t.children), fp);
      yes := n.children[n.children.Length - 1].nType == WildcardNode;
    }
  }

  // Where the walk stands once it has gone into a new static child.
  function StaticFrame(t: Tree, c: char): Frame
    requires |t.indices| <= |t.children| && (t.wildChild ==> t.children != [])
  {
    var m := AppendStatic(t, c);
    Frame(IncrementPrio(m, |t.indices|), NewPos(m, |t.indices|))
  }

  function NewStaticTree(t: Tree, c: char): Tree
    requires |t.indices| <= |t.children| && (t.wildChild ==> t.children != [])
  {
    Bumped(AppendStatic(t, c).children[|t.indices|])
  }

  // Adds a static child and goes into it.
  method NewStatic(n: Node, b: char, ghost w: Walk, ghost t: Tree) returns (c: Node, ghost v: Walk)
    requires Stands(w, n, t) && |t.indices| <= |t.children| && (t.wildChild ==> t.children != [])
    requires |w.nodes| == |w.arrays|
    modifies n, n.children
    ensures fresh(n.children) && fresh(c) && fresh(c.children)
    ensures v == Down(w.(fp := v.fp), n, n.children, StaticFrame(t, b)) && w.fp <= v.fp && fresh(v.fp - w.fp)
    ensures Stands(v, c, NewStaticTree(t, b))
  {
    StandsParts(w, n, t);
    hide *;
    ghost var done := AppendChild(n, b, t, w.fp);
    v := w.(fp := done);
    MoreSpine(w, n, done);
    PartsStand(v, n, AppendStatic(t, b));
    c := DescendStatic(n, |n.indices| - 1, v, AppendStatic(t, b));
    v := Down(v, n, n.children, StaticFrame(t, b));
  }

  // What a step down changes, and what it does not.
  lemma WentDown(w: Walk, v: Walk, n: Node, a: array<Node>, f: Frame, c: Node)
    requires |w.nodes| == |w.arrays| && v == Down(w.(fp := v.fp), n, a, f)
    ensures |v.nodes| == |v.arrays| > 0 && v.frames == w.frames + [f] && Top(v, c) == Top(w, n)
  {
  }

  method EnterStatic(n: Node, b: char, ghost w: Walk, ghost t: Tree) returns (c: Node, ghost v: Walk)
    requires Stands(w, n, t) && |t.indices| <= |t.children| && (t.wildChild ==> t.children != [])
    requires |w.nodes| == |w.arrays|
    modifies n, n.children
    ensures fresh(n.children) && fresh(c) && fresh(c.children)
    ensures w.fp <= v.fp && fresh(v.fp - w.fp) && v.frames == w.frames + [StaticFrame(t, b)]
    ensures |v.nodes| == |v.arrays| && Top(v, c) == Top(w, n)
    ensures Stands(v, c, NewStaticTree(t, b))
  {
    StandsParts(w, n, t);
    hide *;
    c, v := NewStatic(n, b, w, t);
    WentDown(w, v, n, n.children, StaticFrame(t, b), c);
  }

  // A new static child for the path.
  method InsertStatic(n: Node, path: string, full: string, h: Handler, compile: Compiler,
                      ghost w: Walk, ghost t: Tree, ghost goal: Result<Tree>)
    returns (ok: bool, ghost more: set<object>)
    requires Stands(w, n, t) && path != "" && |t.indices| <= |t.children| && (t.wildChild ==> t.children != [])
    requires Owes(w.frames + [StaticFrame(t, path[0])], goal,
                  InsertChild(NewStaticTree(t, path[0]), path, full, h, compile))
    requires |w.nodes| == |w.arrays|
    modifies n, n.children
    ensures fresh(n.children)
    ensures Ended(Top(w, n), goal, ok, w.fp, more)
  {
    hide Rep, RepAll, Spine, Stands, Own, Owes, Plug, Top, InsertChild, StaticFrame, NewStaticTree;
    var c, v := EnterStatic(n, path[0], w, t);
    ok, more := InsertHere(c, path, full, h, compile, v, NewStaticTree(t, path[0]), goal);
  }

  // A new static child for the path, unless a catch-all is in the way.
  method AddStaticInPlace(n: Node, path: string, full: string, h: Handler, compile: Compiler,
                          ghost w: Walk, ghost t: Tree, ghost goal: Result<Tree>)
    returns (ok: bool, ghost more: set<object>)
    requires Stands(w, n, t) && path != "" && |t.indices| <= |t.children| && (t.wildChild ==> t.children != [])
    requires Owes(w.frames, goal, AddStatic(t, path, full, h, compile)) && |w.nodes| == |w.arrays|
    modifies n, n.children
    ensures n.children == old(n.children) || fresh(n.children)
    ensures Ended(Top(w, n), goal, ok, w.fp, more)
  {
    StandsParts(w, n, t);
    hide *;
    more := w.fp;
    var blocked := HasCatchAll(n, t, w.fp);
    AddStaticIs(w.frames, goal, t, path, full, h, compile);
    if blocked {
      OwesPanic(w.frames, goal);
      return false, more;
    }
    ok, more := InsertStatic(n, path, full, h, compile, w, t, goal);
  }

  lemma PartsStand(w: Walk, n: Node, t: Tree)
    requires Spine(w, n) && Own(n, t, w.fp) && n !in w.nodes && n.children !in w.arrays
    ensures Stands(w, n, t)
  {
  }

  lemma AddStaticIs(frames: seq<Frame>, goal: Result<Tree>, t: Tree, path: string, full: string, h: Handler, compile: Compiler)
    requires path != "" && |t.indices| <= |t.children| && (t.wildChild ==> t.children != [])
    requires Owes(frames, goal, AddStatic(t, path, full, h, compile))
    ensures var m := AppendStatic(t, path[0]);
            if t.wildChild && Last(t.children).nType == WildcardNode then Owes(frames, goal, Panic)
            else
              Owes(frames + [StaticFrame(t, path[0])], goal,
                   InsertChild(NewStaticTree(t, path[0]), path, full, h, compile))
  {
    hide InsertChild, Plug;
    if !(t.wildChild && Last(t.children).nType == WildcardNode) {
      var m := AppendStatic(t, path[0]);
      var np := NewPos(m, |t.indices|);
      var k := IncrementPrio(m, |t.indices|);
      PlugOne(frames, StaticFrame(t, path[0]), InsertChild(k.children[np], path, full, h, compile));
    }
  }

  // ---- The walk ----

  // Where the walk goes on: the child's position, if there is one to go into.
  method Choose(n: Node, path: string, ghost t: Tree, ghost fp: set<object>) returns (j: int, moves: bool)
    requires Own(n, t, fp) && Shape(t) && path != ""
    ensures j == Chosen(t, path) && moves == Moves(t, path)
    ensures |t.indices| <= |t.children| && (moves ==> 0 <= j < |t.indices|)
  {
    OwnParts(n, t, fp);
    hide Rep, RepAll, Shape;
    if n.nType == ParamNode && path[0] == '/' && n.children.Length == 1 {
      return 0, false;
    }
    j := IndexByte(n.indices, path[0]);
    if j >= 0 {
      return j, true;
    }
    if IsMark(path[0]) && n.wildChild {
      var fits := WildFits(n, path, t, fp);
      if fits {
        return n.children.Length - 1, false;
      }
    }
    return -1, false;
  }

  method WildFits(n: Node, path: string, ghost t: Tree, ghost fp: set<object>) returns (fits: bool)
    requires Own(n, t, fp) && t.children != []
    ensures fits == TokenFits(Last(t.children), path)
  {
    assert Rep(n.children[..][|t.children| - 1], Last(t.children), fp);
    hide RepAll;
    var last := n.children[n.children.Length - 1];
    fits := && |path| >= |last.path| && last.path == path[..|last.path|]
            && last.nType != WildcardNode
            && (|last.path| >= |path| || path[|last.path|] == '/');
  }

  ghost function ChosenFrame(t: Tree, j: nat, moves: bool): Frame
    requires j < |t.children| && |t.indices| <= |t.children| && (moves ==> j < |t.indices|)
  {
    if moves then Frame(IncrementPrio(t, j), NewPos(t, j)) else Frame(t, j)
  }

  method Descend(n: Node, j: nat, moves: bool, ghost w: Walk, ghost t: Tree) returns (c: Node)
    requires Stands(w, n, t) && j < |t.children| && |t.indices| <= |t.children| && (moves ==> j < |t.indices|)
    modifies n`indices, n.children
    ensures n.children == old(n.children) && fresh(c) && fresh(c.children)
    ensures Stands(Down(w, n, n.children, ChosenFrame(t, j, moves)), c, Bumped(t.children[j]))
  {
    hide Stands;
    if moves {
      c := DescendStatic(n, j, w, t);
    } else {
      c := DescendCopy(n, j, w, t);
    }
  }

  // Going into a child leaves the registration below it to do.
  lemma OwesBelow(frames: seq<Frame>, goal: Result<Tree>, t: Tree, path: string, full: string, h: Handler, compile: Compiler)
    requires Shape(t) && path != "" && Chosen(t, path) >= 0
    requires Owes(frames, goal, AddBelow(t, path, full, h, compile))
    ensures Owes(frames + [ChosenFrame(t, Chosen(t, path), Moves(t, path))], goal,
                 AddWalk(Entered(t, Chosen(t, path)), path, full, h, compile))
  {
    assert |t.indices| <= |t.children|;
    hide AddWalk, Plug, Shape;
    var j, moves := Chosen(t, path), Moves(t, path);
    PlugOne(frames, ChosenFrame(t, j, moves), AddWalk(Entered(t, j), path, full, h, compile));
  }

  // No child takes the path: new nodes, or a panic.
  method GraftInPlace(n: Node, path: string, full: string, h: Handler, compile: Compiler,
                      ghost w: Walk, ghost t: Tree, ghost goal: Result<Tree>)
    returns (ok: bool, ghost more: set<object>)
    requires Stands(w, n, t) && path != "" && |t.indices| <= |t.children| && (t.wildChild ==> t.children != [])
    requires Owes(w.frames, goal, Graft(t, path, full, h, compile)) && |w.nodes| == |w.arrays|
    modifies n, n.children
    ensures n.children == old(n.children) || fresh(n.children)
    ensures Ended(Top(w, n), goal, ok, w.fp, more)
  {
    assert Fields(n, t);
    hide InsertChild, AddStatic, Owes, Stands, Own;
    if !IsMark(path[0]) {
      ok, more := AddStaticInPlace(n, path, full, h, compile, w, t, goal);
    } else if n.wildChild {
      OwesPanic(w.frames, goal);
      ok, more := false, w.fp;
    } else {
      ok, more := InsertHere(n, path, full, h, compile, w, t, goal);
    }
  }

  // What a walk does at a node, in terms of the node after any split.
  ghost function OwedAt(t: Tree, rest: string, full: string, h: Handler, compile: Compiler): Result<Tree>
    requires Shape(t)
  {
    if rest != "" then AddBelow(t, rest, full, h, compile)
    else if t.route.Some? then Panic
    else Ok(SetRoute(t, full, h))
  }

  // The child a walk goes on in weighs less than the node it comes from, even
  // when that node has been split first.
  ghost predicate Lighter(m: Tree, rest: string, t: Tree)
    requires Shape(m)
  {
    rest != "" && Chosen(m, rest) >= 0 ==> Weight(Entered(m, Chosen(m, rest))) < Weight(t)
  }

  lemma WalkStep(t: Tree, path: string, full: string, h: Handler, compile: Compiler)
    requires Shape(t)
    ensures var i := CommonPrefix(path, t.path);
            var m := SplitAt(t, i);
            && Shape(m) && AddWalk(t, path, full, h, compile) == OwedAt(m, path[i..], full, h, compile)
            && Lighter(m, path[i..], t) && (i == |t.path| ==> m == t)
  {
    var i := CommonPrefix(path, t.path);
    SplitShape(t, i);
    if i < |t.path| && i < |path| {
      SplitStep(t, path, i, full, h, compile);
    }
  }

  // Below a node just split there is one child to go on in at most: the lower
  // half of a parameter node.
  lemma SplitStep(t: Tree, path: string, i: nat, full: string, h: Handler, compile: Compiler)
    requires Shape(t) && i == CommonPrefix(path, t.path) && i < |t.path| && i < |path| && Shape(SplitAt(t, i))
    ensures AddWalk(t, path, full, h, compile) == AddBelow(SplitAt(t, i), path[i..], full, h, compile)
    ensures Lighter(SplitAt(t, i), path[i..], t)
  {
    SplitShape(t, i);
    hide Graft, AddWalk;
    var m, rest := SplitAt(t, i), path[i..];
    assert m.indices == [t.path[i]] && m.indices[0] != rest[0];
    assert IndexOf(m.indices, rest[0]) < 0 && !Moves(m, rest);
    assert Chosen(m, rest) == if t.nType == ParamNode && rest[0] == '/' then 0 else -1;
    WalkSplits(t, path, i, full, h, compile);
  }

  lemma WalkSplits(t: Tree, path: string, i: nat, full: string, h: Handler, compile: Compiler)
    requires Shape(t) && i == CommonPrefix(path, t.path) && i < |t.path| && i < |path| && Shape(SplitAt(t, i))
    ensures var m := SplitAt(t, i);
            AddWalk(t, path, full, h, compile) ==
            if t.nType == ParamNode && path[i] == '/' then WithChild(m, 0, AddWalk(Entered(m, 0), path[i..], full, h, compile))
            else Graft(m, path[i..], full, h, compile)
  {
    hide Graft, Shape;
  }

  // Splits the node at `i` unless its text ends there.
  method SplitIfNeeded(n: Node, i: nat, ghost w: Walk, ghost t: Tree) returns (ghost v: Walk)
    requires Stands(w, n, t) && i <= |t.path| && |w.nodes| == |w.arrays|
    modifies n
    ensures n.children == old(n.children) || fresh(n.children)
    ensures v == w.(fp := v.fp) && Stands(v, n, SplitAt(t, i)) && w.fp <= v.fp
    ensures i == |t.path| ==> v == w && n.children == old(n.children)
  {
    assert Fields(n, t);
    hide Stands, Own, Spine;
    v := w;
    if i < |n.path| {
      v := Split(n, i, w, t);
    }
  }

  // The registration ends at this node.
  method EndAtNode(n: Node, full: string, h: Handler, ghost w: Walk, ghost t: Tree, ghost goal: Result<Tree>)
    returns (ok: bool, ghost more: set<object>)
    requires Stands(w, n, t) && |w.nodes| == |w.arrays|
    requires Owes(w.frames, goal, if t.route.Some? then Panic else Ok(SetRoute(t, full, h)))
    modifies n`route, n`pattern
    ensures Ended(Top(w, n), goal, ok, w.fp, more)
  {
    assert Fields(n, t);
    hide Stands, Own, Spine, Owes;
    if n.route.Some? {
      OwesPanic(w.frames, goal);
      return false, w.fp;
    }
    more := EndHere(n, full, h, w, t, goal);
    ok := true;
  }

  // The last step of a walk: the handler here, new nodes below, or a panic.
  method EndWalk(n: Node, rest: string, full: string, h: Handler, compile: Compiler,
                 ghost w: Walk, ghost t: Tree, ghost goal: Result<Tree>)
    returns (ok: bool, ghost more: set<object>)
    requires EndsAt(w, n, t, goal, rest, full, h, compile)
    modifies n, n.children
    ensures n.children == old(n.children) || fresh(n.children)
    ensures Ended(Top(w, n), goal, ok, w.fp, more)
  {
    hide Stands, Own, Spine, Owes, AddWalk, Graft;
    if rest == "" {
      ok, more := EndAtNode(n, full, h, w, t, goal);
    } else {
      ok, more := GraftInPlace(n, rest, full, h, compile, w, t, goal);
    }
  }

  // The walk has a child to go on in.
  ghost predicate GoesOn(frames: seq<Frame>, goal: Result<Tree>, t: Tree, rest: string, full: string, h: Handler,
                         compile: Compiler, j: int, moves: bool)
  {
    && Shape(t) && rest != "" && 0 <= j == Chosen(t, rest) && moves == Moves(t, rest)
    && |t.indices| <= |t.children| && (moves ==> j < |t.indices|)
    && Owes(frames, goal, AddBelow(t, rest, full, h, compile))
  }

  // Where a walk is: `n` holds `t`, below which `path` has still to go.
  ghost predicate At(w: Walk, n: Node, t: Tree, goal: Result<Tree>, path: string, full: string, h: Handler, compile: Compiler)
    reads w.nodes, w.arrays, w.fp, n, n.children
  {
    && Stands(w, n, t) && |w.nodes| == |w.arrays| && Shape(t)
    && Owes(w.frames, goal, AddWalk(t, path, full, h, compile))
  }

  // It has to end at `n`, which may have been split.
  ghost predicate EndsAt(v: Walk, n: Node, m: Tree, goal: Result<Tree>, rest: string, full: string, h: Handler, compile: Compiler)
    reads v.nodes, v.arrays, v.fp, n, n.children
  {
    && Stands(v, n, m) && |v.nodes| == |v.arrays| && Shape(m) && (rest != "" ==> Chosen(m, rest) < 0)
    && Owes(v.frames, goal, OwedAt(m, rest, full, h, compile))
  }

  // Splits the node if the path leaves it in the middle of its text.
  method CutAt(n: Node, path: string, full: string, h: Handler, compile: Compiler,
               ghost w: Walk, ghost t: Tree, ghost goal: Result<Tree>)
    returns (i: nat, ghost v: Walk)
    requires At(w, n, t, goal, path, full, h, compile)
    modifies n
    ensures i <= |path| && i <= |t.path| && v == w.(fp := v.fp) && w.fp <= v.fp && Shape(SplitAt(t, i))
    ensures Stands(v, n, SplitAt(t, i)) && Owes(v.frames, goal, OwedAt(SplitAt(t, i), path[i..], full, h, compile))
    ensures n.children == old(n.children) || fresh(n.children)
    ensures Lighter(SplitAt(t, i), path[i..], t)
  {
    StandsParts(w, n, t);
    OwnParts(n, t, w.fp);
    hide Rep, RepAll, Spine, Stands, Own, Owes, Plug, AddWalk, OwedAt, SplitAt, Shape, Chosen, CommonPrefix;
    i := LongestCommonPrefix(path, n.path);
    WalkStep(t, path, full, h, compile);
    v := SplitIfNeeded(n, i, w, t);
  }

  lemma MayGoOn(frames: seq<Frame>, goal: Result<Tree>, t: Tree, rest: string, full: string, h: Handler,
                compile: Compiler, j: int, moves: bool)
    requires Shape(t) && rest != "" && 0 <= j == Chosen(t, rest) && moves == Moves(t, rest)
    requires Owes(frames, goal, OwedAt(t, rest, full, h, compile))
    ensures GoesOn(frames, goal, t, rest, full, h, compile, j, moves)
  {
  }

  lemma MustEnd(v: Walk, n: Node, m: Tree, goal: Result<Tree>, rest: string, full: string, h: Handler, compile: Compiler)
    requires Stands(v, n, m) && Shape(m) && (rest != "" ==> Chosen(m, rest) < 0)
    requires Owes(v.frames, goal, OwedAt(m, rest, full, h, compile))
    ensures EndsAt(v, n, m, goal, rest, full, h, compile)
  {
  }

  // Looks for a child to go on in.
  method Look(n: Node, rest: string, full: string, h: Handler, compile: Compiler,
              ghost v: Walk, ghost m: Tree, ghost goal: Result<Tree>)
    returns (j: int, moves: bool)
    requires Stands(v, n, m) && Shape(m) && Owes(v.frames, goal, OwedAt(m, rest, full, h, compile))
    ensures j >= 0 ==> GoesOn(v.frames, goal, m, rest, full, h, compile, j, moves)
    ensures j < 0 ==> EndsAt(v, n, m, goal, rest, full, h, compile)
  {
    StandsParts(v, n, m);
    hide *;
    j, moves := -1, false;
    if rest != "" {
      j, moves := Choose(n, rest, m, v.fp);
    }
    if j >= 0 {
      MayGoOn(v.frames, goal, m, rest, full, h, compile, j, moves);
    } else {
      MustEnd(v, n, m, goal, rest, full, h, compile);
    }
  }

  // What the walk does at one node: it ends there unless it can go on.
  method Visit(n: Node, path: string, full: string, h: Handler, compile: Compiler,
               ghost w: Walk, ghost t: Tree, ghost goal: Result<Tree>)
    returns (i: nat, j: int, moves: bool, ok: bool, ghost more: set<object>, ghost v: Walk)
    requires At(w, n, t, goal, path, full, h, compile)
    modifies n, n.children
    ensures n.children == old(n.children) || fresh(n.children)
    ensures if j >= 0 then Onward(w, v, n, t, i, goal, path, full, h, compile, j, moves)
            else Ended(Top(w, n), goal, ok, w.fp, more)
  {
    assert |w.nodes| == |w.arrays|;
    hide *;
    i, v := CutAt(n, path, full, h, compile, w, t, goal);
    TopSame(w, v, n);
    j, moves, ok, more := VisitCut(n, path[i..], full, h, compile, v, SplitAt(t, i), goal);
    if j < 0 {
      EndedSooner(Top(w, n), goal, ok, w.fp, v.fp, more);
    } else {
      OnwardIs(w, v, n, t, i, goal, path, full, h, compile, j, moves);
    }
  }

  // The same once the node ends where the path leaves it.
  method VisitCut(n: Node, rest: string, full: string, h: Handler, compile: Compiler,
                  ghost v: Walk, ghost m: Tree, ghost goal: Result<Tree>)
    returns (j: int, moves: bool, ok: bool, ghost more: set<object>)
    requires Stands(v, n, m) && Shape(m) && Owes(v.frames, goal, OwedAt(m, rest, full, h, compile))
    modifies n, n.children
    ensures n.children == old(n.children) || fresh(n.children)
    ensures if j >= 0 then Stands(v, n, m) && GoesOn(v.frames, goal, m, rest, full, h, compile, j, moves)
            else Ended(Top(v, n), goal, ok, v.fp, more)
  {
    hide *;
    j, moves := Look(n, rest, full, h, compile, v, m, goal);
    ok, more := false, {};
    if j < 0 {
      ok, more := EndWalk(n, rest, full, h, compile, v, m, goal);
    }
  }

  // The walk goes on at a child of the node, split if it had to be.
  ghost predicate Onward(w: Walk, v: Walk, n: Node, t: Tree, i: nat, goal: Result<Tree>, path: string, full: string,
                         h: Handler, compile: Compiler, j: int, moves: bool)
    reads v.nodes, v.arrays, v.fp, n, n.children
  {
    && i <= |path| && i <= |t.path| && v == w.(fp := v.fp) && w.fp <= v.fp
    && Stands(v, n, SplitAt(t, i)) && Shape(SplitAt(t, i)) && Lighter(SplitAt(t, i), path[i..], t)
    && GoesOn(v.frames, goal, SplitAt(t, i), path[i..], full, h, compile, j, moves)
  }

  lemma OnwardIs(w: Walk, v: Walk, n: Node, t: Tree, i: nat, goal: Result<Tree>, path: string, full: string,
                 h: Handler, compile: Compiler, j: int, moves: bool)
    requires i <= |path| && i <= |t.path| && v == w.(fp := v.fp) && w.fp <= v.fp
    requires Stands(v, n, SplitAt(t, i)) && Shape(SplitAt(t, i)) && Lighter(SplitAt(t, i), path[i..], t)
    requires GoesOn(v.frames, goal, SplitAt(t, i), path[i..], full, h, compile, j, moves)
    ensures Onward(w, v, n, t, i, goal, path, full, h, compile, j, moves)
  {
  }

  lemma OnwardGives(w: Walk, v: Walk, n: Node, t: Tree, i: nat, goal: Result<Tree>, path: string, full: string,
                    h: Handler, compile: Compiler, j: int, moves: bool)
    requires Onward(w, v, n, t, i, goal, path, full, h, compile, j, moves)
    ensures i <= |path| && i <= |t.path| && v == w.(fp := v.fp) && w.fp <= v.fp
    ensures Stands(v, n, SplitAt(t, i)) && Shape(SplitAt(t, i)) && Lighter(SplitAt(t, i), path[i..], t)
    ensures GoesOn(v.frames, goal, SplitAt(t, i), path[i..], full, h, compile, j, moves)
  {
  }

  lemma EndedSooner(start: Node, goal: Result<Tree>, ok: bool, fp: set<object>, grown: set<object>, more: set<object>)
    requires Ended(start, goal, ok, grown, more) && fp <= grown
    ensures Ended(start, goal, ok, fp, more)
  {
  }

  // One step down, into the child the walk goes on in.
  method GoDown(n: Node, rest: string, full: string, h: Handler, compile: Compiler, j: int, moves: bool,
                ghost w: Walk, ghost t: Tree, ghost goal: Result<Tree>)
    returns (c: Node, ghost v: Walk, ghost u: Tree)
    requires Stands(w, n, t) && |w.nodes| == |w.arrays| && GoesOn(w.frames, goal, t, rest, full, h, compile, j, moves)
    modifies n`indices, n.children
    ensures n.children == old(n.children) && fresh(c) && fresh(c.children)
    ensures At(v, c, u, goal, rest, full, h, compile) && Shape(t) && rest != "" && Chosen(t, rest) >= 0
    ensures u == Entered(t, Chosen(t, rest))
    ensures v.nodes != [] && |v.nodes| == |v.arrays| && v.fp == w.fp && Top(v, c) == Top(w, n)
  {
    hide Rep, RepAll, Spine, Stands, Own, Owes, Plug, AddWalk, AddBelow, Shape, Chosen, Moves, ChosenFrame;
    c := Descend(n, j, moves, w, t);
    OwesBelow(w.frames, goal, t, rest, full, h, compile);
    v, u := Down(w, n, n.children, ChosenFrame(t, j, moves)), Entered(t, j);
    WentDown(w, v, n, n.children, ChosenFrame(t, j, moves), c);
  }

  lemma AtStart(n: Node, t: Tree, fp: set<object>, path: string, full: string, h: Handler, compile: Compiler)
    requires Own(n, t, fp) && Shape(t)
    ensures var w := NO_STEPS.(fp := fp);
            && Top(w, n) == n
            && At(w, n, t, AddWalk(t, path, full, h, compile), path, full, h, compile)
  {
    Begin(n, t, fp, AddWalk(t, path, full, h, compile));
  }

  // Registers `pattern` at and below `start`, which nobody else can see yet.
  method WalkInPlace(start: Node, pattern: string, full: string, h: Handler, compile: Compiler,
                     ghost t: Tree, ghost fp: set<object>)
    returns (ok: bool, ghost more: set<object>)
    requires Own(start, t, fp) && Shape(t)
    modifies start, start.children
    ensures start.children == old(start.children) || fresh(start.children)
    ensures Ended(start, AddWalk(t, pattern, full, h, compile), ok, fp, more)
  {
    AtStart(start, t, fp, pattern, full, h, compile);
    hide Rep, RepAll, Spine, Stands, Own, Owes, Plug, AddWalk, AddBelow, Shape, At, GoesOn, Ended, Onward, Lighter, Chosen, Entered, SplitAt;
    var n, path := start, pattern;
    ghost var w, cur, goal := NO_STEPS.(fp := fp), t, AddWalk(t, pattern, full, h, compile);
    while true
      invariant At(w, n, cur, goal, path, full, h, compile)
      invariant |w.nodes| == |w.arrays| && fp <= w.fp && Top(w, n) == start
      invariant start.children == old(start.children) || fresh(start.children)
      invariant if w.nodes == [] then n == start else fresh(n) && fresh(n.children)
      decreases Weight(cur)
    {
      var i, j, moves, ended, done, v := Visit(n, path, full, h, compile, w, cur, goal);
      if j < 0 {
        EndedSooner(start, goal, ended, fp, w.fp, done);
        return ended, done;
      }
      OnwardGives(w, v, n, cur, i, goal, path, full, h, compile, j, moves);
      path := path[i..];
      ghost var m := SplitAt(cur, i);
      TopSame(w, v, n);
      n, w, cur := GoDown(n, path, full, h, compile, j, moves, v, m, goal);
    }
  }

  lemma TopSame(w: Walk, v: Walk, n: Node)
    requires v == w.(fp := v.fp)
    ensures Top(v, n) == Top(w, n) && v.nodes == w.nodes && v.arrays == w.arrays
  {
  }

  // ---- One pattern ----

  // Sets the root's kind after its first pattern.
  method InsertAtFreshRoot(root: Node, pattern: string, h: Handler, compile: Compiler, ghost t: Tree, ghost fp: set<object>)
    returns (ok: bool, ghost more: set<object>)
    requires Own(root, t, fp)
    modifies root
    ensures root.children == old(root.children) || fresh(root.children)
    ensures var r := InsertChild(t, pattern, pattern, h, compile);
            Ended(root, if r.Ok? then Ok(r.value.(nType := RootNode)) else Panic, ok, fp, more)
  {
    hide Rep, RepAll, InsertChild;
    ok, more := InsertChildInPlace(root, pattern, pattern, h, compile, t, fp);
    root.nType := RootNode;
  }

  // What AddPattern does before it sets the root's maxParams.
  ghost function Added(t: Tree, pattern: string, h: Handler, compile: Compiler): Result<Tree>
    requires Shape(t)
  {
    var n := Bumped(t);
    if n.path == "" && n.indices == ""
    then match InsertChild(n, pattern, pattern, h, compile)
         case Ok(t) => Ok(t.(nType := RootNode))
         case Panic => Panic
    else AddWalk(n, pattern, pattern, h, compile)
  }

  lemma AddPatternIs(t: Tree, pattern: string, h: Handler, compile: Compiler)
    requires Shape(t)
    ensures Shape(Bumped(t))
    ensures AddPattern(t, pattern, h, compile)
         == match Added(t, pattern, h, compile)
            case Ok(u) => Ok(u.(maxParams := RaisedMax(t.maxParams, CountParams(pattern))))
            case Panic => Panic
  {
  }

  method AddInPlace(root: Node, pattern: string, h: Handler, compile: Compiler, ghost t: Tree, ghost fp: set<object>)
    returns (ok: bool, ghost more: set<object>)
    requires Own(root, t, fp) && Shape(t)
    modifies root, root.children
    ensures root.children == old(root.children) || fresh(root.children)
    ensures Ended(root, Added(t, pattern, h, compile), ok, fp, more)
  {
    AddPatternIs(t, pattern, h, compile);
    AddedIs(t, pattern, h, compile);
    OwnParts(root, t, fp);
    FieldsPath(root, t);
    hide *;
    Count(root, t, fp);
    if root.path == "" && root.indices == "" {
      ok, more := InsertAtFreshRoot(root, pattern, h, compile, Bumped(t), fp);
    } else {
      ok, more := WalkInPlace(root, pattern, pattern, h, compile, Bumped(t), fp);
    }
  }

  method Count(root: Node, ghost t: Tree, ghost fp: set<object>)
    requires Own(root, t, fp)
    modifies root`priority
    ensures Own(root, Bumped(t), fp)
  {
    hide Rep, RepAll;
    root.priority := Bump(root.priority);
  }

  lemma FieldsPath(n: Node, t: Tree)
    requires Fields(n, t)
    ensures n.path == t.path
  {
  }

  lemma AddedIs(t: Tree, pattern: string, h: Handler, compile: Compiler)
    requires Shape(t) && Shape(Bumped(t))
    ensures Added(t, pattern, h, compile)
         == if t.path == "" && t.indices == ""
            then match InsertChild(Bumped(t), pattern, pattern, h, compile)
                 case Ok(u) => Ok(u.(nType := RootNode))
                 case Panic => Panic
            else AddWalk(Bumped(t), pattern, pattern, h, compile)
  {
  }

  // Registers a pattern at a root that nobody else can see yet.
  method AddPatternInPlace(root: Node, pattern: string, h: Handler, compile: Compiler, ghost t: Tree, ghost fp: set<object>)
    returns (ok: bool, ghost more: set<object>)
    requires Own(root, t, fp) && Shape(t)
    modifies root, root.children
    ensures root.children == old(root.children) || fresh(root.children)
    ensures Ended(root, AddPattern(t, pattern, h, compile), ok, fp, more)
  {
    AddPatternIs(t, pattern, h, compile);
    hide *;
    var maxParams := root.maxParams;
    assert maxParams == t.maxParams by { OwnParts(root, t, fp); FieldsMaxParams(root, t); }
    ok, more := AddInPlace(root, pattern, h, compile, t, fp);
    var count := CountPatternParams(pattern);
    RaiseMaxParams(root, maxParams, count, Added(t, pattern, h, compile), ok, fp, more);
  }

  lemma FieldsMaxParams(n: Node, t: Tree)
    requires Fields(n, t)
    ensures n.maxParams == t.maxParams
  {
  }

  // Saturates at the largest byte.
  method RaiseMaxParams(root: Node, maxParams: nat, count: nat, ghost r: Result<Tree>, ghost ok: bool,
                        ghost fp: set<object>, ghost more: set<object>)
    requires Ended(root, r, ok, fp, more)
    modifies root`maxParams
    ensures Ended(root, match r
                        case Ok(u) => Ok(u.(maxParams := RaisedMax(maxParams, count)))
                        case Panic => Panic, ok, fp, more)
  {
    hide Rep, RepAll;
    root.maxParams := if count <= maxParams then maxParams
                      else if count > MAX_PARAMS_LIMIT then MAX_PARAMS_LIMIT else count;
  }
}
