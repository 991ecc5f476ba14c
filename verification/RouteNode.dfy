// The radix tree as it is: nodes with fields that registration updates in
// place, each with its own array of children. `Rep` ties a node to the value
// in RouteTree it stands for; registration is proved to compute what RouteTree
// says while writing to no node or array that was reachable before.
module RouteNode {
  import opened Wrappers
  import opened Patterns
  import opened RouteTree

  class Node {
    var path: string
    var route: Option<Handler>
    var indices: string
    var children: array<Node>
    var pattern: string
    var priority: nat
    var nType: NodeType
    var wildChild: bool
    var nameEnd: nat
    var maxParams: nat
    var regexp: Option<Regexp>

    // A node literal; fields it does not name keep their zero values.
    constructor (path: string, nType: NodeType, children: array<Node>)
      ensures Fields(this, EMPTY_TREE.(path := path, nType := nType)) && this.children == children
    {
      this.path, this.nType, this.children := path, nType, children;
      route, indices, pattern, priority := None, "", "", 0;
      wildChild, nameEnd, maxParams, regexp := false, 0, 0, None;
    }

    constructor Copy(n: Node, children: array<Node>)
      ensures this.children == children
      ensures path == n.path && route == n.route && indices == n.indices && pattern == n.pattern
      ensures priority == n.priority && nType == n.nType && wildChild == n.wildChild
      ensures nameEnd == n.nameEnd && maxParams == n.maxParams && regexp == n.regexp
    {
      path, route, indices, pattern := n.path, n.route, n.indices, n.pattern;
      priority, nType, wildChild := n.priority, n.nType, n.wildChild;
      nameEnd, maxParams, regexp := n.nameEnd, n.maxParams, n.regexp;
      this.children := children;
    }
  }

  // All fields but the children.
  ghost predicate Fields(n: Node, t: Tree)
    reads n
  {
    && n.path == t.path && n.route == t.route && n.indices == t.indices && n.pattern == t.pattern
    && n.priority == t.priority && n.nType == t.nType && n.wildChild == t.wildChild
    && n.nameEnd == t.nameEnd && n.maxParams == t.maxParams && n.regexp == t.regexp
  }

  // `n` stands for `t`, and everything reachable from it lies in `fp`.
  ghost predicate Rep(n: Node, t: Tree, fp: set<object>)
    reads fp
    decreases t
  {
    n in fp && n.children in fp && Fields(n, t) && RepAll(n.children[..], t.children, fp)
  }

  ghost predicate RepAll(ns: seq<Node>, ts: seq<Tree>, fp: set<object>)
    reads fp
    decreases ts
  {
    |ns| == |ts| && forall i | 0 <= i < |ts| :: Rep(ns[i], ts[i], fp)
  }

  ghost predicate RepAllBut(ns: seq<Node>, ts: seq<Tree>, hole: nat, fp: set<object>)
    reads fp
  {
    |ns| == |ts| && hole < |ts| && forall i | 0 <= i < |ts| && i != hole :: Rep(ns[i], ts[i], fp)
  }

  // `n` stands for `t` and may be written to: its children lie in `fp`, but
  // neither it nor its array does.
  ghost predicate Own(n: Node, t: Tree, fp: set<object>)
    reads n, n.children, fp
  {
    n !in fp && n.children !in fp && Fields(n, t) && RepAll(n.children[..], t.children, fp)
  }

  // The same, with nothing said about the child at `hole`.
  ghost predicate Holed(n: Node, t: Tree, hole: nat, fp: set<object>)
    reads n, n.children, fp
  {
    n !in fp && n.children !in fp && Fields(n, t) && RepAllBut(n.children[..], t.children, hole, fp)
  }

  lemma {:induction false} RepMore(n: Node, t: Tree, fp: set<object>, more: set<object>)
    requires Rep(n, t, fp) && fp <= more
    ensures Rep(n, t, more)
    decreases t
  {
    RepAllMore(n.children[..], t.children, fp, more);
  }

  lemma {:induction false} RepAllMore(ns: seq<Node>, ts: seq<Tree>, fp: set<object>, more: set<object>)
    requires RepAll(ns, ts, fp) && fp <= more
    ensures RepAll(ns, ts, more)
    decreases ts
  {
    forall i | 0 <= i < |ts| ensures Rep(ns[i], ts[i], more) {
      RepMore(ns[i], ts[i], fp, more);
    }
  }

  lemma OwnRep(n: Node, t: Tree, fp: set<object>)
    requires Own(n, t, fp)
    ensures Rep(n, t, fp + {n, n.children})
  {
    RepAllMore(n.children[..], t.children, fp, fp + {n, n.children});
  }

  lemma HoledMore(n: Node, t: Tree, hole: nat, fp: set<object>, more: set<object>)
    requires Holed(n, t, hole, fp) && fp <= more && n !in more && n.children !in more
    ensures Holed(n, t, hole, more)
  {
    forall i | 0 <= i < |t.children| && i != hole ensures Rep(n.children[..][i], t.children[i], more) {
      RepMore(n.children[..][i], t.children[i], fp, more);
    }
  }

  // A hole, filled.
  lemma Fill(n: Node, t: Tree, hole: nat, x: Tree, fp: set<object>)
    requires Holed(n, t, hole, fp) && Rep(n.children[hole], x, fp)
    ensures Own(n, t.(children := t.children[hole := x]), fp)
  {
  }

  // ---- Copying ----

  // A private copy: the fields, and an array of its own for the same children.
  method CopyNode(n: Node, ghost t: Tree, ghost fp: set<object>) returns (c: Node)
    requires Rep(n, t, fp)
    ensures fresh(c) && fresh(c.children) && Own(c, t, fp)
  {
    RepFields(n, t, fp);
    hide Rep, RepAll;
    var children := CopyChildren(n.children);
    c := new Node.Copy(n, children);
  }

  method CopyChildren(a: array<Node>) returns (b: array<Node>)
    ensures fresh(b) && b[..] == a[..]
  {
    b := new Node[a.Length](i requires 0 <= i < a.Length reads a => a[i]);
  }

  // The elements of `a` and one more, always in an array of their own. Go's
  // append writes into spare capacity behind `a` when there is some, which
  // this model does not capture.
  method Append(a: array<Node>, x: Node) returns (b: array<Node>)
    ensures fresh(b) && b[..] == a[..] + [x]
  {
    b := new Node[a.Length + 1](i requires 0 <= i <= a.Length reads a => if i < a.Length then a[i] else x);
  }

  method One(x: Node) returns (b: array<Node>)
    ensures fresh(b) && b[..] == [x]
  {
    b := new Node[1](_ => x);
  }

  // ---- Reordering ----

  lemma MoveUpNowhere<T>(s: seq<T>, pos: nat)
    requires pos < |s|
    ensures MoveUp(s, pos, pos) == s
  {
  }

  lemma RepFields(n: Node, t: Tree, fp: set<object>)
    requires Rep(n, t, fp)
    ensures n in fp && n.children in fp && Fields(n, t) && n.children.Length == |t.children|
    ensures RepAll(n.children[..], t.children, fp)
  {
  }

  lemma Priorities(ns: seq<Node>, ts: seq<Tree>, fp: set<object>)
    requires RepAll(ns, ts, fp)
    ensures |ns| == |ts|
    ensures forall k | 0 <= k < |ns| :: Rep(ns[k], ts[k], fp) && ns[k] in fp && ns[k].priority == ts[k].priority
  {
  }

  // Moves the element at `pos` forward past elements of lower priority.
  method SettleChild(cs: array<Node>, pos: nat, ghost kids: seq<Tree>) returns (np: nat)
    requires pos < cs.Length == |kids|
    requires forall k | 0 <= k < cs.Length :: cs[k].priority == kids[k].priority
    modifies cs
    ensures np == Settle(kids, pos, kids[pos].priority)
    ensures cs[..] == MoveUp(old(cs[..]), pos, np)
  {
    hide MoveUp;
    ghost var before := cs[..];
    var priority := cs[pos].priority;
    np := pos;
    while np > 0 && cs[np - 1].priority < priority
      invariant np <= pos
      invariant forall k | 0 <= k < cs.Length :: cs[k] == before[MovedFrom(pos, np, k)]
      invariant forall k | 0 <= k < |before| :: before[k].priority == kids[k].priority
      invariant Settle(kids, pos, priority) == Settle(kids, np, priority)
    {
      cs[np - 1], cs[np] := cs[np], cs[np - 1];
      np := np - 1;
    }
    MovedIs(cs[..], before, pos, np);
  }

  lemma MovedIs<T>(s: seq<T>, before: seq<T>, pos: nat, np: nat)
    requires np <= pos < |s| == |before|
    requires forall k | 0 <= k < |s| :: s[k] == before[MovedFrom(pos, np, k)]
    ensures s == MoveUp(before, pos, np)
  {
  }

  // The state IncrementChildPrio leaves, put together from its parts.
  lemma Reassemble(n: Node, t: Tree, pos: nat, np: nat, before: seq<Node>, child: Node, fp: set<object>)
    requires n !in fp && n.children !in fp && pos < |t.indices| <= |t.children| == |before| && np == NewPos(t, pos)
    requires RepAll(before, t.children, fp)
    requires n.children[..] == MoveUp(before[pos := child], pos, np)
    requires Fields(n, t.(indices := MoveUp(t.indices, pos, np)))
    ensures Holed(n, IncrementPrio(t, pos), np, fp) && n.children[np] == child
  {
    hide Rep;
    var k := IncrementPrio(t, pos);
    var moved := MoveUp(before[pos := child], pos, np);
    assert |moved| == |k.children|;
    forall i | 0 <= i < |k.children| && i != np ensures Rep(n.children[..][i], k.children[i], fp) {
      var j := MovedFrom(pos, np, i);
      assert n.children[..][i] == moved[i] == before[j];
      assert k.children[i] == t.children[j];
    }
    assert n.children[..][np] == moved[np];
  }

  // The copy of a child a registration enters: one more is counted below it.
  method CountedCopy(n: Node, ghost t: Tree, ghost fp: set<object>) returns (c: Node)
    requires Rep(n, t, fp)
    ensures fresh(c) && fresh(c.children) && Own(c, Bumped(t), fp)
  {
    hide Rep, RepAll;
    c := CopyNode(n, t, fp);
    c.priority := Bump(c.priority);
  }

  // Puts the counted copy of the child at `pos` in its place.
  method CountChild(n: Node, pos: nat, ghost t: Tree, ghost fp: set<object>) returns (child: Node)
    requires Own(n, t, fp) && pos < |t.children|
    modifies n.children
    ensures fresh(child) && fresh(child.children) && Own(child, Bumped(t.children[pos]), fp)
    ensures n.children[..] == old(n.children[..])[pos := child]
    ensures RepAll(old(n.children[..]), t.children, fp) && n.children.Length == |t.children|
    ensures forall k | 0 <= k < |t.children| ::
              n.children[k].priority == t.children[pos := Bumped(t.children[pos])][k].priority
  {
    hide Rep, RepAll;
    ghost var before := n.children[..];
    Priorities(before, t.children, fp);
    assert before[pos] == n.children[pos];
    child := CountedCopy(n.children[pos], t.children[pos], fp);
    n.children[pos] := child;
    Priorities(before, t.children, fp);
  }

  // Copies the child at `pos`, counts a registration below it, and moves it in
  // front of children of lower priority.
  method IncrementChildPrio(n: Node, pos: nat, ghost t: Tree, ghost fp: set<object>) returns (np: nat)
    requires Own(n, t, fp) && pos < |t.indices| <= |t.children|
    modifies n`indices, n.children
    ensures np == NewPos(t, pos) && n.children == old(n.children)
    ensures Holed(n, IncrementPrio(t, pos), np, fp)
    ensures var c := n.children[np];
            fresh(c) && fresh(c.children) && Own(c, Bumped(t.children[pos]), fp)
  {
    ghost var before := n.children[..];
    var child := CountChild(n, pos, t, fp);
    hide Rep, RepAll, RepAllBut, MoveUp, IncrementPrio, NewPos, Own, Holed;
    np := MoveChild(n, pos, t, before, child, fp);
  }

  method MoveChild(n: Node, pos: nat, ghost t: Tree, ghost before: seq<Node>, ghost child: Node, ghost fp: set<object>)
    returns (np: nat)
    requires n !in fp && n.children !in fp && Fields(n, t) && pos < |t.indices| <= |t.children| == |before|
    requires RepAll(before, t.children, fp) && n.children[..] == before[pos := child]
    requires n.children.Length == |t.children|
    requires forall k | 0 <= k < |t.children| ::
               n.children[k].priority == t.children[pos := Bumped(t.children[pos])][k].priority
    modifies n`indices, n.children
    ensures np == NewPos(t, pos) && n.children == old(n.children)
    ensures Holed(n, IncrementPrio(t, pos), np, fp) && n.children[np] == child
  {
    hide Rep, RepAll, RepAllBut, MoveUp, IncrementPrio, Holed;
    np := SettleChild(n.children, pos, t.children[pos := Bumped(t.children[pos])]);
    MoveUpNowhere(t.indices, pos);
    if np != pos {
      n.indices := MovedIndices(n.indices, pos, np);
    }
    Reassemble(n, t, pos, np, before, child, fp);
  }

  // The index bytes, in the order the children have taken.
  function MovedIndices(s: string, pos: nat, np: nat): (r: string)
    requires np <= pos < |s|
    ensures r == MoveUp(s, pos, np)
  {
    s[..np] + s[pos..pos + 1] + s[np..pos] + s[pos + 1..]
  }
}
