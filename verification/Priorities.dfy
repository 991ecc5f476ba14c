// What the priorities are: each node counts the routes below it, and of the
// children found by their first byte those with more routes come first.
module Priorities {
  import opened Wrappers
  import opened Patterns
  import opened RouteTree
  import opened RouteSet
  import opened TreeInsert
  import opened SuffixFits
  import opened TreeWalk
  import opened Registration
  import opened OrderIndependence

  function RouteCount(t: Tree): nat
    decreases t
  {
    (if t.route.Some? then 1 else 0) + CountAll(t.children)
  }

  function CountAll(ts: seq<Tree>): nat
    decreases ts
  {
    if ts == [] then 0 else RouteCount(ts[0]) + CountAll(ts[1..])
  }

  // Children found by their first byte are in order of their priorities.
  predicate Sorted(n: Tree) {
    |n.indices| <= |n.children| && forall i, j | 0 <= i < j < |n.indices| :: n.children[i].priority >= n.children[j].priority
  }

  predicate Tallied(n: Tree)
    decreases n
  {
    n.priority == RouteCount(n) && Sorted(n) && forall j | 0 <= j < |n.children| :: Tallied(n.children[j])
  }

  // Below the node all is in order.
  predicate Ordered(n: Tree) { Sorted(n) && forall j | 0 <= j < |n.children| :: Tallied(n.children[j]) }

  // A registration has come to the node and counted itself.
  predicate Awaiting(n: Tree) { n.priority == RouteCount(n) + 1 < PRIORITY_RANGE && Ordered(n) }

  // It has brought one route.
  predicate Grown(n: Tree, t: Tree) { RouteCount(t) == RouteCount(n) + 1 && Ordered(t) && t.priority == n.priority }

  lemma GrownTallied(n: Tree, t: Tree)
    requires Awaiting(n) && Grown(n, t)
    ensures Tallied(t)
  {
  }

  // ---- Counting in sequences ----

  lemma {:induction false} CountConcat(a: seq<Tree>, b: seq<Tree>)
    ensures CountAll(a + b) == CountAll(a) + CountAll(b)
  {
    if a == [] {
      assert a + b == b;
    } else {
      assert (a + b)[1..] == a[1..] + b;
      CountConcat(a[1..], b);
    }
  }

  lemma CountOne(t: Tree)
    ensures CountAll([t]) == RouteCount(t)
  {
    assert [t][1..] == [];
  }

  lemma CountSplit(ts: seq<Tree>, j: nat)
    requires j < |ts|
    ensures CountAll(ts) == CountAll(ts[..j]) + RouteCount(ts[j]) + CountAll(ts[j + 1..])
  {
    assert ts[j..][1..] == ts[j + 1..];
    assert CountAll(ts[j..]) == RouteCount(ts[j]) + CountAll(ts[j + 1..]);
    hide CountAll;
    assert ts == ts[..j] + ts[j..];
    CountConcat(ts[..j], ts[j..]);
  }

  lemma CountReplaced(ts: seq<Tree>, j: nat, t: Tree)
    requires j < |ts|
    ensures CountAll(ts[j := t]) == CountAll(ts) - RouteCount(ts[j]) + RouteCount(t)
  {
    CountSplit(ts, j);
    CountSplit(ts[j := t], j);
    assert ts[j := t][..j] == ts[..j] && ts[j := t][j + 1..] == ts[j + 1..];
  }

  lemma CountMoved(ts: seq<Tree>, pos: nat, np: nat)
    requires np <= pos < |ts|
    ensures CountAll(MoveUp(ts, pos, np)) == CountAll(ts)
  {
    var a, b, c := ts[..np], ts[np..pos], ts[pos + 1..];
    hide *;
    CountSplit(ts, pos);
    MovedParts(ts, pos, np);
    CountConcat(a, b);
    CountConcat(a, [ts[pos]] + b + c);
    CountConcat([ts[pos]] + b, c);
    CountConcat([ts[pos]], b);
    CountOne(ts[pos]);
  }

  lemma MovedParts(ts: seq<Tree>, pos: nat, np: nat)
    requires np <= pos < |ts|
    ensures MoveUp(ts, pos, np) == ts[..np] + ([ts[pos]] + ts[np..pos] + ts[pos + 1..])
    ensures ts[..pos] == ts[..np] + ts[np..pos]
  {
  }

  lemma {:induction false} CountElement(ts: seq<Tree>, j: nat)
    requires j < |ts|
    ensures RouteCount(ts[j]) <= CountAll(ts)
  {
    if j > 0 { CountElement(ts[1..], j - 1); }
  }

  lemma CountBumped(t: Tree)
    ensures RouteCount(Bumped(t)) == RouteCount(t)
  {
  }

  // ---- Moving a child up ----

  lemma {:induction false} SettleMeans(cs: seq<Tree>, pos: nat, priority: nat)
    requires pos < |cs|
    ensures var np := Settle(cs, pos, priority);
            && (np > 0 ==> cs[np - 1].priority >= priority)
            && forall k | np <= k < pos :: cs[k].priority < priority
  {
    if pos > 0 && cs[pos - 1].priority < priority { SettleMeans(cs, pos - 1, priority); }
  }

  // The child at `j` has become `t`, counted one higher, and is moved up.
  lemma MovedSorted(n: Tree, j: nat, t: Tree)
    requires Sorted(n) && j < |n.indices| && t.priority == Bump(n.children[j].priority) == n.children[j].priority + 1
    ensures Sorted(Reordered(n.(children := n.children[j := t]), j, NewPos(n, j)))
  {
    var np := NewPos(n, j);
    var cs := n.children[j := t];
    SettleMeans(n.children[j := Bumped(n.children[j])], j, t.priority);
    assert forall k | np <= k < j :: cs[k].priority < t.priority by {
      assert forall k | np <= k < j :: n.children[j := Bumped(n.children[j])][k] == cs[k];
    }
    assert np > 0 ==> cs[np - 1].priority >= t.priority;
    hide NewPos, MoveUp;
    StillSorted(cs, |n.indices|, j, np);
  }

  // Only element `j` is out of place, and it belongs at `np`.
  lemma StillSorted(cs: seq<Tree>, size: nat, j: nat, np: nat)
    requires np <= j < size <= |cs|
    requires forall a, b | 0 <= a < b < size && a != j && b != j :: cs[a].priority >= cs[b].priority
    requires forall b | j < b < size :: cs[j].priority >= cs[b].priority
    requires (forall k | np <= k < j :: cs[k].priority < cs[j].priority) && (np > 0 ==> cs[np - 1].priority >= cs[j].priority)
    ensures forall a, b | 0 <= a < b < size :: MoveUp(cs, j, np)[a].priority >= MoveUp(cs, j, np)[b].priority
  {
    forall a, b | 0 <= a < b < size ensures MoveUp(cs, j, np)[a].priority >= MoveUp(cs, j, np)[b].priority {
      var x, y := MovedFrom(j, np, a), MovedFrom(j, np, b);
      assert MoveUp(cs, j, np)[a] == cs[x] && MoveUp(cs, j, np)[b] == cs[y];
      if y == j { assert x < np && (x < np - 1 ==> cs[x].priority >= cs[np - 1].priority); }
    }
  }

  lemma RejoinGrown(n: Tree, j: nat, moves: bool, t: Tree)
    requires Ordered(n) && j < |n.children| && (moves ==> j < |n.indices|)
    requires Grown(Bumped(n.children[j]), t) && Tallied(t) && RouteCount(n) + 1 < PRIORITY_RANGE
    requires !moves ==> j >= |n.indices| || |n.indices| <= 1
    ensures var r := Rejoin(n, j, moves, Ok(t)); r.Ok? && Grown(n, r.value)
  {
    CountedOne(n, j, t);
    hide CountAll, Tallied, Grown, Bump;
    var m := n.(children := n.children[j := t]);
    if moves {
      RejoinIsReordered(n, j, t);
      hide *;
      MovedGrown(n, j, t);
    } else {
      ReplacedGrown(n, j, t);
    }
  }

  // The child's own priority has gone up by one, and so has the count.
  lemma CountedOne(n: Tree, j: nat, t: Tree)
    requires Ordered(n) && j < |n.children| && Grown(Bumped(n.children[j]), t) && RouteCount(n) + 1 < PRIORITY_RANGE
    ensures t.priority == n.children[j].priority + 1 == Bump(n.children[j].priority)
    ensures CountAll(n.children[j := t]) == CountAll(n.children) + 1
  {
    CountElement(n.children, j);
    assert Tallied(n.children[j]) && RouteCount(n.children[j]) + 1 < PRIORITY_RANGE;
    hide *;
    OneHigher(n.children[j], t);
    CountReplaced(n.children, j, t);
  }

  lemma OneHigher(c: Tree, t: Tree)
    requires Tallied(c) && Grown(Bumped(c), t) && RouteCount(c) + 1 < PRIORITY_RANGE
    ensures t.priority == c.priority + 1 == Bump(c.priority) && RouteCount(t) == RouteCount(c) + 1
  {
    CountBumped(c);
    hide RouteCount;
  }

  lemma ReplacedGrown(n: Tree, j: nat, t: Tree)
    requires Ordered(n) && j < |n.children| && Tallied(t) && (j >= |n.indices| || |n.indices| <= 1)
    requires CountAll(n.children[j := t]) == CountAll(n.children) + 1
    ensures Grown(n, n.(children := n.children[j := t]))
  {
    hide CountAll, Tallied;
  }

  lemma MovedGrown(n: Tree, j: nat, t: Tree)
    requires Ordered(n) && j < |n.indices| <= |n.children| && Tallied(t)
    requires t.priority == n.children[j].priority + 1 == Bump(n.children[j].priority)
    requires CountAll(n.children[j := t]) == CountAll(n.children) + 1
    ensures Grown(n, Reordered(n.(children := n.children[j := t]), j, NewPos(n, j)))
  {
    hide CountAll, Tallied, NewPos, Sorted;
    MovedSorted(n, j, t);
    CountMoved(n.children[j := t], j, NewPos(n, j));
    MovedTallied(n.children[j := t], j, NewPos(n, j));
    hide MoveUp;
  }

  lemma MovedTallied(ts: seq<Tree>, pos: nat, np: nat)
    requires np <= pos < |ts| && forall j | 0 <= j < |ts| :: Tallied(ts[j])
    ensures forall j | 0 <= j < |ts| :: Tallied(MoveUp(ts, pos, np)[j])
  {
    hide Tallied;
    forall j | 0 <= j < |ts| ensures Tallied(MoveUp(ts, pos, np)[j]) {
      assert MoveUp(ts, pos, np)[j] == ts[MovedFrom(pos, np, j)];
    }
  }

  // ---- New nodes ----

  // Where the new route goes nothing is in its place.
  predicate Vacant(n: Tree, path: string) {
    var w := FindWild(path);
    && (w.start < 0 ==> n.route.None?)
    && (w.start > 0 && path[w.start] == '*' ==> n.children == [])
  }

  lemma EmptyAwaits(path: string)
    ensures Awaiting(EMPTY_TREE.(priority := 1)) && Vacant(EMPTY_TREE.(priority := 1), path)
  {
  }

  lemma {:induction false} InsertGrown(n: Tree, path: string, full: string, h: Handler, compile: Compiler)
    requires Ordered(n) && Vacant(n, path)
    ensures var r := InsertChild(n, path, full, h, compile); r.Ok? ==> Grown(n, r.value)
    decreases |path|, 2
  {
    var w := FindWild(path);
    if w.start >= 0 && w.valid && |w.token| >= 2 {
      var m := TextBefore(n, path, w.start);
      var rest := path[w.start..];
      if w.token[0] == ':' {
        ParamGrown(m, EMPTY_TREE.(nType := ParamNode, path := w.token), rest, full, h, compile);
      } else if w.token[0] == '{' {
        RegexGrown(m, w.token, rest, full, h, compile);
      } else {
        assert path[w.start] == '*';
        StarGrown(n, path, w.start, |w.token|, full, h);
      }
    }
  }

  lemma {:induction false} RegexGrown(n: Tree, token: string, path: string, full: string, h: Handler, compile: Compiler)
    requires Ordered(n) && 2 <= |token| <= |path| && token[0] == '{' && Last(token) == '}'
    ensures var r := InsertRegex(n, token, path, full, h, compile); r.Ok? ==> Grown(n, r.value)
    decreases |path|, 1
  {
    var colon := IndexOf(token[1..], ':');
    if colon >= 0 {
      var re := compile(token[2 + colon..|token| - 1]);
      ParamGrown(n, EMPTY_TREE.(nType := RegexNode, path := token, regexp := re, nameEnd := 1 + colon), path, full, h, compile);
    }
  }

  lemma {:induction false} ParamGrown(n: Tree, child: Tree, path: string, full: string, h: Handler, compile: Compiler)
    requires Ordered(n) && 2 <= |child.path| <= |path| && child.children == [] && child.indices == "" && child.route.None? && child.priority == 0
    ensures var r := InsertParam(n, child, path, full, h, compile); r.Ok? ==> Grown(n, r.value)
    decreases |path|, 0
  {
    var bumped := Bumped(child);
    if |child.path| < |path| {
      var tail := path[|child.path|..];
      EmptyAwaits(tail);
      InsertGrown(EMPTY_TREE.(priority := 1), tail, full, h, compile);
      var r := InsertChild(EMPTY_TREE.(priority := 1), tail, full, h, compile);
      if r.Ok? {
        CountOne(r.value);
        LastGrown(n, bumped.(children := [r.value]));
      }
    } else {
      assert CountAll(bumped.children) == 0;
      LastGrown(n, SetRoute(bumped, full, h));
    }
  }

  // One more child, behind the others.
  lemma LastGrown(n: Tree, c: Tree)
    requires Ordered(n) && Tallied(c) && RouteCount(c) == 1
    ensures Grown(n, n.(children := n.children + [c], wildChild := true))
  {
    CountConcat(n.children, [c]);
    CountOne(c);
    hide CountAll;
  }

  lemma StarGrown(n: Tree, path: string, start: nat, size: nat, full: string, h: Handler)
    requires Ordered(n) && start <= |path| && (start > 0 ==> n.children == [])
    ensures var r := InsertCatchAll(n, path, start, size, full, h); r.Ok? ==> Grown(n, r.value)
  {
    if start > 0 {
      var leaf := CatchAllLeaf(path[start - 1..], full, h);
      assert CountAll(leaf.children) == 0 && CountAll(n.children) == 0;
      CountOne(leaf);
      CountOne(CatchAllNode(leaf));
      assert Tallied(leaf);
      hide CountAll;
      assert Tallied(CatchAllNode(leaf));
    }
  }

  // ---- Below a node ----

  // A new static child comes behind the others and is moved up.
  lemma StaticGrown(n: Tree, rest: string, full: string, h: Handler, compile: Compiler)
    requires Ordered(n) && rest != "" && RouteCount(n) + 1 < PRIORITY_RANGE
    requires |n.children| == |n.indices| + (if n.wildChild then 1 else 0)
    ensures var r := AddStatic(n, rest, full, h, compile); r.Ok? ==> Grown(n, r.value)
  {
    if !(n.wildChild && Last(n.children).nType == WildcardNode) {
      var j, m := |n.indices|, AppendStatic(n, rest[0]);
      AppendedOrdered(n, rest[0]);
      BumpedChild(m, j);
      EmptyAwaits(rest);
      var e := Bumped(EMPTY_TREE);
      var r := InsertChild(e, rest, full, h, compile);
      hide InsertChild, AppendStatic, NewPos, IncrementPrio, Ordered, RouteCount, Sorted;
      assert AddStatic(n, rest, full, h, compile) == Rejoin(m, j, true, r);
      hide *;
      AwaitsOrdered(e);
      InsertGrown(e, rest, full, h, compile);
      if r.Ok? {
        GrownTallied(e, r.value);
        RejoinGrown(m, j, true, r.value);
        GrownSame(n, m, Rejoin(m, j, true, r).value);
      }
    }
  }

  lemma GrownSame(n: Tree, m: Tree, t: Tree)
    requires Grown(m, t) && RouteCount(m) == RouteCount(n) && m.priority == n.priority
    ensures Grown(n, t)
  {
  }

  lemma AppendedOrdered(n: Tree, c: char)
    requires Ordered(n) && |n.children| == |n.indices| + (if n.wildChild then 1 else 0)
    ensures var m := AppendStatic(n, c);
            && Ordered(m) && RouteCount(m) == RouteCount(n) && |m.indices| == |n.indices| + 1 <= |m.children|
            && m.children[|n.indices|] == EMPTY_TREE && m.priority == n.priority
  {
    var m, j := AppendStatic(n, c), |n.indices|;
    AppendIs(n, c);
    EmptyTallied();
    assert Sorted(n) && forall k | 0 <= k < |n.children| :: Tallied(n.children[k]);
    hide *;
    CountInserted(n.children, j, EMPTY_TREE);
    InsertedSorted(n, m);
    TalliedInserted(n.children, j, EMPTY_TREE);
    InsertedAt(n.children, j, EMPTY_TREE);
    SameCount(n, m);
  }

  lemma SameCount(n: Tree, m: Tree)
    requires m.route == n.route && CountAll(m.children) == CountAll(n.children)
    requires Sorted(m) && forall k | 0 <= k < |m.children| :: Tallied(m.children[k])
    ensures Ordered(m) && RouteCount(m) == RouteCount(n)
  {
    hide CountAll, Sorted, Tallied;
  }

  lemma InsertedSorted(n: Tree, m: Tree)
    requires Sorted(n) && |m.indices| == |n.indices| + 1
    requires m.children == n.children[..|n.indices|] + [EMPTY_TREE] + n.children[|n.indices|..]
    ensures Sorted(m)
  {
    InsertedAt(n.children, |n.indices|, EMPTY_TREE);
  }

  lemma TalliedInserted(ts: seq<Tree>, j: nat, t: Tree)
    requires j <= |ts| && Tallied(t) && forall k | 0 <= k < |ts| :: Tallied(ts[k])
    ensures forall k | 0 <= k <= |ts| :: Tallied((ts[..j] + [t] + ts[j..])[k])
  {
    hide Tallied;
    InsertedAt(ts, j, t);
  }

  lemma AppendIs(n: Tree, c: char)
    requires |n.children| == |n.indices| + (if n.wildChild then 1 else 0)
    ensures AppendStatic(n, c)
         == n.(indices := n.indices + [c], children := n.children[..|n.indices|] + [EMPTY_TREE] + n.children[|n.indices|..])
  {
  }

  lemma EmptyTallied()
    ensures Tallied(EMPTY_TREE) && RouteCount(EMPTY_TREE) == 0
  {
    assert CountAll(EMPTY_TREE.children) == 0;
  }

  lemma CountInserted(ts: seq<Tree>, j: nat, t: Tree)
    requires j <= |ts|
    ensures CountAll(ts[..j] + [t] + ts[j..]) == CountAll(ts) + RouteCount(t)
  {
    hide *;
    assert ts == ts[..j] + ts[j..];
    CountConcat(ts[..j], [t]);
    CountConcat(ts[..j] + [t], ts[j..]);
    CountConcat(ts[..j], ts[j..]);
    CountOne(t);
  }

  // What the node held has moved to a single child.
  lemma SplitOrdered(n: Tree, i: nat)
    requires Awaiting(n) && i < |n.path|
    ensures var m := SplitAt(n, i);
            && Ordered(m) && RouteCount(m) == RouteCount(n) && m.priority == n.priority && m.route.None?
            && |m.children| == 1 == |m.indices| && !m.wildChild
  {
    var m := SplitAt(n, i);
    var c := m.children[0];
    CountOne(c);
    assert c.children == n.children && c.route == n.route && c.indices == n.indices;
    assert c.priority == Drop(n.priority) == RouteCount(n);
    hide CountAll;
  }

  lemma GraftGrown(n: Tree, rest: string, full: string, h: Handler, compile: Compiler)
    requires Ordered(n) && rest != "" && RouteCount(n) + 1 < PRIORITY_RANGE
    requires IsMark(rest[0]) || |n.children| == |n.indices| + (if n.wildChild then 1 else 0)
    requires |n.indices| <= |n.children| && (n.wildChild ==> n.children != [])
    ensures var r := Graft(n, rest, full, h, compile); r.Ok? ==> Grown(n, r.value)
  {
    if !IsMark(rest[0]) {
      StaticGrown(n, rest, full, h, compile);
    } else {
      MarkFirst(rest);
      InsertGrown(n, rest, full, h, compile);
    }
  }

  lemma MarkFirst(rest: string)
    requires rest != "" && IsMark(rest[0])
    ensures FindWild(rest).start == 0
  {
  }

  // Where a suffix takes a child over that it fits, it adds to that child.
  lemma StuckGrown(n: Tree, prefix: string, rest: string, full: string, h: Handler, compile: Compiler)
    requires WellFormed(n, prefix, compile) && Shape(n) && n.path != "" && Stuck(n, rest) && rest[0] == '/' && Tidy(rest)
    requires full == prefix + n.path + rest && (Valid(rest, compile) ==> Fits(n.children[0], rest))
    requires Ordered(n) && RouteCount(n) + 1 < PRIORITY_RANGE
    ensures var r := AddBelow(n, rest, full, h, compile); r.Ok? ==> Grown(n, r.value)
  {
    var c := n.children[0];
    StuckContext(n, prefix, rest, compile);
    assert Tallied(c) && RouteCount(c) + 1 < PRIORITY_RANGE by { CountElement(n.children, 0); }
    hide *;
    StuckIs(n, rest, full, h, compile);
    TakenOk(c, prefix + n.path, rest, h, compile);
    var r := InsertChild(Bumped(c), rest, full, h, compile);
    if r.Ok? {
      FitsVacant(c, rest);
      BumpedAwaits(c);
      AwaitsOrdered(Bumped(c));
      InsertGrown(Bumped(c), rest, full, h, compile);
      GrownTallied(Bumped(c), r.value);
      GrownCount(c, r.value);
      TakenGrown(n, r.value, rest[0]);
    }
  }

  lemma AwaitsOrdered(n: Tree)
    requires Awaiting(n)
    ensures Ordered(n)
  {
  }

  lemma GrownCount(c: Tree, t: Tree)
    requires Grown(Bumped(c), t)
    ensures RouteCount(t) == RouteCount(c) + 1
  {
    CountBumped(c);
  }

  lemma FitsVacant(c: Tree, rest: string)
    requires Fits(c, rest) && !Refused(c, rest)
    ensures Vacant(Bumped(c), rest)
  {
  }

  lemma TakenGrown(n: Tree, t: Tree, b: char)
    requires |n.children| == 1 && Tallied(n.children[0]) && Tallied(t) && RouteCount(t) == RouteCount(n.children[0]) + 1
    ensures Grown(n, n.(indices := [b], children := [t, EMPTY_TREE]))
  {
    CountOne(n.children[0]);
    CountOne(EMPTY_TREE);
    CountConcat([t], [EMPTY_TREE]);
    CountOne(t);
    assert [t] + [EMPTY_TREE] == [t, EMPTY_TREE] && n.children == [n.children[0]];
    assert CountAll(EMPTY_TREE.children) == 0 && Tallied(EMPTY_TREE);
    hide CountAll;
  }

  // ---- The walk ----

  lemma {:induction false} BelowGrown(n: Tree, prefix: string, rest: string, full: string, h: Handler, compile: Compiler)
    requires WellFormed(n, prefix, compile) && Shape(n) && n.nType != WildcardNode && n.path != ""
    requires rest != "" && Tidy(rest) && !MisfitsBelow(n, rest, compile) && full == prefix + n.path + rest
    requires TokenKind(n) ==> rest[0] == '/'
    requires Ordered(n) && RouteCount(n) + 1 < PRIORITY_RANGE
    ensures var r := AddBelow(n, rest, full, h, compile); r.Ok? ==> Grown(n, r.value)
    decreases Size(n), 0
  {
    var j := Chosen(n, rest);
    if Stuck(n, rest) {
      StuckGrown(n, prefix, rest, full, h, compile);
    } else if j < 0 {
      GraftPlace(n, prefix, rest, compile);
      GraftGrown(n, rest, full, h, compile);
    } else {
      hide AddWalk, Rejoin, WellFormed;
      ChosenContinues(n, prefix, rest, compile);
      ChosenEnters(n, prefix, rest, compile);
      ChosenPlace(n, prefix, rest, compile);
      var c := Entered(n, j);
      ChildWellFormed(n, prefix, j, compile);
      BumpedSame(n.children[j], prefix + n.path, compile);
      EnteredAwaits(n, j);
      WalkGrown(c, prefix + n.path, rest, full, h, compile);
      var r := AddWalk(c, rest, full, h, compile);
      if r.Ok? {
        GrownTallied(c, r.value);
        RejoinGrown(n, j, Moves(n, rest), r.value);
      }
    }
  }

  // The child is counted when it is entered.
  lemma EnteredAwaits(n: Tree, j: nat)
    requires Shape(n) && Ordered(n) && RouteCount(n) + 1 < PRIORITY_RANGE && j < |n.children|
    ensures Awaiting(Entered(n, j))
  {
    CountElement(n.children, j);
    assert Tallied(n.children[j]);
    BumpedAwaits(n.children[j]);
    hide Shape, RouteCount, Tallied, Awaiting;
  }

  lemma BumpedAwaits(c: Tree)
    requires Tallied(c) && RouteCount(c) + 1 < PRIORITY_RANGE
    ensures Awaiting(Bumped(c))
  {
    CountBumped(c);
    hide RouteCount;
  }

  lemma GraftPlace(n: Tree, prefix: string, rest: string, compile: Compiler)
    requires WellFormed(n, prefix, compile) && Shape(n) && n.nType != WildcardNode && n.path != "" && rest != ""
    requires !Stuck(n, rest) && Chosen(n, rest) < 0 && (TokenKind(n) ==> rest[0] == '/')
    ensures IsMark(rest[0]) || |n.children| == |n.indices| + (if n.wildChild then 1 else 0)
  {
    WildKinds(n, prefix, compile);
  }

  lemma ChosenPlace(n: Tree, prefix: string, rest: string, compile: Compiler)
    requires WellFormed(n, prefix, compile) && Shape(n) && n.nType != WildcardNode && rest != "" && Chosen(n, rest) >= 0
    ensures !Moves(n, rest) ==> Chosen(n, rest) >= |n.indices| || |n.indices| <= 1
  {
    WildKinds(n, prefix, compile);
  }

  lemma {:induction false} WalkGrown(n: Tree, prefix: string, path: string, full: string, h: Handler, compile: Compiler)
    requires WellFormed(n, prefix, compile) && Shape(n) && Enters(n, path) && Awaiting(n)
    requires Tidy(path) && !Misfits(n, path, compile) && full == prefix + path
    ensures var r := AddWalk(n, path, full, h, compile); r.Ok? ==> Grown(n, r.value)
    decreases Size(n), 1
  {
    hide GoodToken, Uncons, IsToken, Tidy, Local;
    var i := CommonPrefix(path, n.path);
    if n.path == "" {
      NoTextStatic(n, prefix, path, compile);
      NoTextClashes(n, prefix, path, full, h, compile);
    } else if i < |n.path| {
      assert StaticKind(n) by { TokenWhole(n, prefix, path, compile); }
      SplitGrown(n, path, full, h, compile);
    } else if i == |path| {
      if n.route.None? { SetRouteGrown(n, full, h); }
    } else {
      hide AddBelow;
      var rest := path[i..];
      MisfitsIs(n, path, compile);
      RestBelow(n, prefix, path, compile);
      Concat(prefix, n.path, rest);
      BelowGrown(n, prefix, rest, full, h, compile);
      WalkIsBelow(n, path, full, h, compile);
    }
  }

  lemma SetRouteGrown(n: Tree, full: string, h: Handler)
    requires Ordered(n) && n.route.None?
    ensures Grown(n, SetRoute(n, full, h))
  {
  }

  lemma SplitGrown(n: Tree, path: string, full: string, h: Handler, compile: Compiler)
    requires Shape(n) && StaticKind(n) && Awaiting(n) && CommonPrefix(path, n.path) < |n.path|
    ensures var r := AddWalk(n, path, full, h, compile); r.Ok? ==> Grown(n, r.value)
  {
    var i := CommonPrefix(path, n.path);
    var m := SplitAt(n, i);
    SplitOrdered(n, i);
    hide Graft, SplitAt, Ordered, RouteCount;
    if i == |path| {
      SetRouteGrown(m, full, h);
    } else {
      GraftGrown(m, path[i..], full, h, compile);
    }
  }

  // ---- Registrations ----

  // A fitting registration counts one route more, keeps the count of every
  // node right and every node's children in order of their counts.
  lemma PatternTallied(root: Tree, pattern: string, h: Handler, compile: Compiler)
    requires Registered(root, compile) && Shape(root) && Rooted(pattern) && RootFits(root, pattern, compile)
    requires Tallied(root) && RouteCount(root) + 1 < PRIORITY_RANGE
    ensures var r := AddPattern(root, pattern, h, compile);
            r.Ok? ==> Tallied(r.value) && RouteCount(r.value) == RouteCount(root) + 1
  {
    RootShape(root, compile);
    AddPatternCases(root, pattern, h, compile);
    hide AddPattern, InsertChild, AddWalk;
    if Fresh(root) {
      FirstTallied(root, pattern, h, compile);
    } else {
      NextTallied(root, pattern, h, compile);
    }
  }

  lemma FirstTallied(root: Tree, pattern: string, h: Handler, compile: Compiler)
    requires Fresh(root) && Tallied(root)
    ensures var r := Relabelled(InsertChild(Bumped(root), pattern, pattern, h, compile));
            r.Ok? ==> forall m: nat :: Tallied(r.value.(maxParams := m)) && RouteCount(r.value.(maxParams := m)) == RouteCount(root) + 1
  {
    assert CountAll(root.children) == 0 && PRIORITY_RANGE > 1;
    BumpedAwaits(root);
    AwaitsOrdered(Bumped(root));
    InsertGrown(Bumped(root), pattern, pattern, h, compile);
    var r := InsertChild(Bumped(root), pattern, pattern, h, compile);
    hide InsertChild;
    if r.Ok? {
      GrownTallied(Bumped(root), r.value);
      GrownCount(root, r.value);
      Labelled(r.value, RootNode);
    }
  }

  lemma Labelled(t: Tree, nType: NodeType)
    requires Tallied(t)
    ensures forall m: nat :: var u := t.(nType := nType, maxParams := m); Tallied(u) && RouteCount(u) == RouteCount(t)
  {
  }

  lemma NextTallied(root: Tree, pattern: string, h: Handler, compile: Compiler)
    requires Registered(root, compile) && !Fresh(root) && Shape(root) && Shape(Bumped(root)) && Rooted(pattern)
    requires RootFits(root, pattern, compile) && Tallied(root) && RouteCount(root) + 1 < PRIORITY_RANGE
    ensures !(root.path == "" && root.indices == "")
    ensures var r := AddWalk(Bumped(root), pattern, pattern, h, compile);
            r.Ok? ==> forall m: nat :: Tallied(r.value.(maxParams := m)) && RouteCount(r.value.(maxParams := m)) == RouteCount(root) + 1
  {
    NextEnters(root, pattern, compile);
    BumpedAwaits(root);
    hide *;
    WalkGrown(Bumped(root), "", pattern, pattern, h, compile);
    var r := AddWalk(Bumped(root), pattern, pattern, h, compile);
    if r.Ok? {
      GrownTallied(Bumped(root), r.value);
      GrownCount(root, r.value);
      Labelled(r.value, r.value.nType);
    }
  }

  lemma {:induction false} AddAllTallied(root: Tree, es: seq<Entry>, compile: Compiler)
    requires Registered(root, compile) && Shape(root) && (forall e | e in es :: Rooted(e.0)) && FitsAll(root, es, compile)
    requires Tallied(root) && RouteCount(root) + |es| < PRIORITY_RANGE
    ensures var r := AddAll(root, es, compile); r.Ok? ==> Tallied(r.value) && RouteCount(r.value) == RouteCount(root) + |es|
    decreases |es|
  {
    if es != [] {
      hide AddPattern, Tallied, RouteCount, Registered, Shape;
      PatternShape(root, es[0].0, es[0].1, compile);
      PatternTallied(root, es[0].0, es[0].1, compile);
      AddPatternRegisters(root, es[0].0, es[0].1, compile);
      var r := AddPattern(root, es[0].0, es[0].1, compile);
      if r.Ok? { AddAllTallied(r.value, es[1..], compile); }
    }
  }

  // After any successful sequence of fitting registrations, fewer than the
  // counter holds, every node's priority is the number of routes below it, the
  // root's that of all registrations, and children with more come first.
  lemma RegistrationsTallied(es: seq<Entry>, compile: Compiler)
    requires (forall e | e in es :: Rooted(e.0)) && Fitting(es, compile) && |es| < PRIORITY_RANGE
    ensures var r := RegisterAll(es, compile); r.Ok? ==> Tallied(r.value) && RouteCount(r.value) == |es|
  {
    EmptyIsRegistered(compile);
    assert CountAll(EMPTY_TREE.children) == 0;
    hide FitsAll;
    AddAllTallied(EMPTY_TREE, es, compile);
  }
}
