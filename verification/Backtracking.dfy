// What the walkers keep while they go: what the steps at a node mean for the
// lookup, what the frames pushed for later still stand for, and in which
// order nodes are entered.
module Backtracking {
  import opened Wrappers
  import opened Patterns
  import opened RouteTree
  import opened TreeLookup

  // ---- One step at a node ----

  // A node whose text has to match: a handler, a dead end, or the child to go
  // on in with what is left of the path.
  datatype TextStep = TextMatch(handler: Handler, pattern: string) | TextFail(tsr: bool)
                    | ToStatic(j: nat, rest: string) | ToWild(left: string)

  // A wildcard node: likewise, with one capture.
  datatype WildStep = WildMatch(handler: Handler, pattern: string) | WildFail(tsr: bool) | ToNext(rest: string)

  // What `step` means for the search at `t` when `tsr` is the flag so far.
  ghost predicate TextMeans(t: Tree, path: string, ci: bool, tsr: bool, step: TextStep)
    requires Walkable(t)
  {
    match step
    case TextMatch(h, p) => Search(t, path, ci, tsr) == Hit(Found(h, p, []), tsr)
    case TextFail(x) => Search(t, path, ci, tsr) == Miss(x, x)
    case ToStatic(j, rest) =>
      && rest != "" && j < |t.indices| && Walkable(t.children[j])
      && (t.wildChild ==> Walkable(Last(t.children)))
      && var o := Search(t.children[j], rest, ci, tsr);
         Search(t, path, ci, tsr) == if o.Miss? && t.wildChild then Retried(t, rest, ci, o.last, o.saw) else o
    case ToWild(rest) =>
      && rest != "" && t.wildChild && Walkable(Last(t.children))
      && Search(t, path, ci, tsr) == SearchWild(Last(t.children), rest, ci, tsr)
  }

  // The wildcard child of `t` after its static children have failed.
  function Retried(t: Tree, rest: string, ci: bool, last: bool, saw: bool): Outcome
    requires Walkable(t) && t.wildChild && rest != ""
  {
    After(SearchWild(Last(t.children), rest, ci, last), saw)
  }

  ghost predicate WildMeans(t: Tree, path: string, ci: bool, tsr: bool, cap: Param, step: WildStep)
    requires Walkable(t) && WildLocal(t) && path != ""
  {
    match step
    case WildMatch(h, p) => SearchWild(t, path, ci, tsr) == Hit(Found(h, p, [cap]), tsr)
    case WildFail(x) => SearchWild(t, path, ci, tsr) == Miss(x, x)
    case ToNext(rest) =>
      && t.children != [] && Walkable(t.children[0])
      && SearchWild(t, path, ci, tsr) == Captured(cap, Search(t.children[0], rest, ci, tsr))
  }

  // The step taken at a node whose text has to match.
  function TextStepAt(t: Tree, path: string, ci: bool, tsr: bool): (step: TextStep)
    requires Walkable(t)
    ensures TextMeans(t, path, ci, tsr, step)
  {
    if |path| > |t.path| then
      if !PrefixMatch(path[..|t.path|], t.path, ci) then TextFail(tsr)
      else
        var rest := path[|t.path|..];
        var j := FindIndex(t.indices, rest[0], ci);
        if j >= 0 then ToStatic(j, rest)
        else if t.wildChild then ToWild(rest)
        else TextFail(rest == "/" && t.route.Some?)
    else if PrefixMatch(path, t.path, ci) then
      if t.route.Some? then TextMatch(t.route.value, t.pattern) else TextFail(SlashHint(t, path))
    else TextFail(ShortHint(t, path, ci))
  }

  // What a wildcard node captures if it takes part of `path`.
  function CaptureAt(t: Tree, path: string): Param
    requires WildLocal(t)
  {
    if t.nType == WildcardNode then Param(t.path[2..], path) else Param(WildName(t), path[..SegmentEnd(path)])
  }

  // The step taken at a wildcard node.
  function WildStepAt(t: Tree, path: string, ci: bool, tsr: bool): (step: WildStep)
    requires Walkable(t) && WildLocal(t) && path != ""
    ensures WildMeans(t, path, ci, tsr, CaptureAt(t, path), step)
  {
    if t.nType == WildcardNode then
      if t.route.Some? then WildMatch(t.route.value, t.pattern) else WildFail(tsr)
    else
      var e := SegmentEnd(path);
      if e == 0 || !Accepts(t, path[..e]) then WildFail(tsr)
      else if e == |path| then
        if t.route.Some? then WildMatch(t.route.value, t.pattern)
        else WildFail(if |t.children| == 1 then t.children[0].path == "/" && t.children[0].route.Some? else tsr)
      else if t.children != [] then ToNext(path[e..])
      else WildFail(|path| == e + 1)
  }

  // ---- Frames ----

  // A node whose static child was entered while it has a wildcard child too,
  // the path then left, the captures then made, and the wildcard child's
  // preorder number.
  datatype Fork = Fork(tree: Tree, rest: string, caps: seq<Param>, number: int)

  predicate ForkOk(f: Fork) { Walkable(f.tree) && f.tree.wildChild && f.rest != "" }

  predicate ForksOk(forks: seq<Fork>) { forall k | 0 <= k < |forks| :: ForkOk(forks[k]) }

  // An outcome below captures already made.
  function Prepended(caps: seq<Param>, o: Outcome): Outcome {
    match o
    case Hit(f, tsr) => Hit(f.(caps := caps + f.caps), tsr)
    case Miss(_, _) => o
  }

  // What the whole lookup comes to if the current attempt comes to `o`: on a
  // miss the last frame is tried, then the one before it, and so on.
  function Unwind(forks: seq<Fork>, o: Outcome, ci: bool): Outcome
    requires ForksOk(forks)
    decreases |forks|
  {
    if o.Hit? || forks == [] then o
    else
      var f := Last(forks);
      Unwind(forks[..|forks| - 1], Prepended(f.caps, Retried(f.tree, f.rest, ci, o.last, o.saw)), ci)
  }

  // The lookup that is to be answered, seen from the current attempt.
  ghost predicate Leads(whole: Outcome, forks: seq<Fork>, caps: seq<Param>, saw: bool, o: Outcome, ci: bool) {
    ForksOk(forks) && whole == Unwind(forks, After(Prepended(caps, o), saw), ci)
  }

  lemma PrependedCaptured(caps: seq<Param>, cap: Param, o: Outcome)
    ensures Prepended(caps, Captured(cap, o)) == Prepended(caps + [cap], o)
  {
    if o.Hit? { assert caps + ([cap] + o.found.caps) == caps + [cap] + o.found.caps; }
  }

  // Going on in a static child, with a frame for the wildcard child.
  lemma LeadsFork(whole: Outcome, forks: seq<Fork>, f: Fork, saw: bool, o: Outcome, ci: bool)
    requires ForkOk(f)
    requires Leads(whole, forks, f.caps, saw, if o.Miss? then Retried(f.tree, f.rest, ci, o.last, o.saw) else o, ci)
    ensures Leads(whole, forks + [f], f.caps, saw, o, ci)
  {
    hide Search, SearchWild;
    assert (forks + [f])[..|forks|] == forks;
  }

  // A dead end: the last frame is next.
  lemma LeadsBack(whole: Outcome, forks: seq<Fork>, caps: seq<Param>, saw: bool, tsr: bool, ci: bool)
    requires Leads(whole, forks, caps, saw, Miss(tsr, tsr), ci) && forks != []
    ensures var f := Last(forks);
            && ForkOk(f)
            && Leads(whole, forks[..|forks| - 1], f.caps, saw || tsr, SearchWild(Last(f.tree.children), f.rest, ci, tsr), ci)
  {
  }

  // ---- The order in which nodes are entered ----

  // `n` is the node of `t` with preorder number `k`.
  ghost predicate Numbered(t: Tree, k: int, n: Tree)
    decreases t
  {
    || (k == 0 && n == t)
    || exists j | 0 <= j < |t.children| :: Numbered(t.children[j], k - Start(t, j), n)
  }

  // The number of child `j`, counted from its parent.
  function Start(t: Tree, j: nat): (k: nat)
    requires j <= |t.children|
    ensures k > 0
  {
    1 + SizeAll(t.children[..j])
  }

  lemma {:induction false} SizeOfAll(a: seq<Tree>, b: seq<Tree>)
    ensures SizeAll(a + b) == SizeAll(a) + SizeAll(b)
  {
    if a == [] {
      assert a + b == b;
    } else {
      assert (a + b)[1..] == a[1..] + b;
      SizeOfAll(a[1..], b);
    }
  }

  // Children take up disjoint ranges of numbers, in their order.
  lemma Ranges(t: Tree, i: nat, j: nat)
    requires i < j <= |t.children|
    ensures Start(t, i) + Size(t.children[i]) <= Start(t, j) <= Size(t)
  {
    var cs := t.children;
    assert cs[..j] == cs[..i] + cs[i..j];
    SizeOfAll(cs[..i], cs[i..j]);
    assert cs == cs[..j] + cs[j..];
    SizeOfAll(cs[..j], cs[j..]);
  }

  lemma {:induction false} NumberedChild(t: Tree, k: int, n: Tree, j: nat)
    requires Numbered(t, k, n) && j < |n.children|
    ensures Numbered(t, k + Start(n, j), n.children[j])
    decreases t
  {
    if k == 0 && n == t {
      assert Numbered(t.children[j], 0, t.children[j]);
      assert Numbered(t.children[j], k + Start(n, j) - Start(t, j), n.children[j]);
    } else {
      var i :| 0 <= i < |t.children| && Numbered(t.children[i], k - Start(t, i), n);
      NumberedChild(t.children[i], k - Start(t, i), n, j);
      assert k - Start(t, i) + Start(n, j) == k + Start(n, j) - Start(t, i);
    }
  }

  // One number, one node.
  lemma {:induction false} NumberDecides(t: Tree, k: int, n: Tree, m: Tree)
    requires Numbered(t, k, n) && Numbered(t, k, m)
    ensures n == m && 0 <= k && k + Size(n) <= Size(t)
    decreases t
  {
    NumberRange(t, k, n);
    NumberRange(t, k, m);
    if k > 0 {
      var i := NumberedIn(t, k, n);
      var j := NumberedIn(t, k, m);
      hide *;
      if i < j { Ranges(t, i, j); }
      if j < i { Ranges(t, j, i); }
      NumberDecides(t.children[i], k - Start(t, i), n, m);
    } else {
      OnlyFirst(t, n);
      OnlyFirst(t, m);
    }
  }

  // The child a node below `t` lies in.
  lemma NumberedIn(t: Tree, k: int, n: Tree) returns (j: nat)
    requires Numbered(t, k, n) && k > 0
    ensures j < |t.children| && Numbered(t.children[j], k - Start(t, j), n)
    ensures Start(t, j) <= k && k + Size(n) <= Start(t, j) + Size(t.children[j])
  {
    j :| 0 <= j < |t.children| && Numbered(t.children[j], k - Start(t, j), n);
    NumberRange(t.children[j], k - Start(t, j), n);
  }

  lemma OnlyFirst(t: Tree, n: Tree)
    requires Numbered(t, 0, n)
    ensures n == t
  {
    if n != t {
      var j :| 0 <= j < |t.children| && Numbered(t.children[j], 0 - Start(t, j), n);
      NumberRange(t.children[j], 0 - Start(t, j), n);
    }
  }

  lemma {:induction false} NumberRange(t: Tree, k: int, n: Tree)
    requires Numbered(t, k, n)
    ensures 0 <= k && k + Size(n) <= Size(t)
    decreases t
  {
    if !(k == 0 && n == t) {
      var j :| 0 <= j < |t.children| && Numbered(t.children[j], k - Start(t, j), n);
      NumberRange(t.children[j], k - Start(t, j), n);
      Ranges(t, j, j + 1);
    }
  }

  predicate Increasing(s: seq<int>) { forall i, j | 0 <= i < j < |s| :: s[i] < s[j] }

  // The walk is at number `k` of `t`, at a node `n`; every node entered so far
  // comes before it, every node still pending behind it.
  ghost predicate InOrder(t: Tree, k: int, n: Tree, forks: seq<Fork>, entered: seq<int>) {
    && Numbered(t, k, n) && Increasing(entered) && (entered != [] ==> Last(entered) < k)
    && (forall i | 0 <= i < |entered| :: 0 <= entered[i])
    && Pending(t, k + Size(n), forks)
  }

  // The wildcard children still to be tried, all behind number `k`.
  ghost predicate Pending(t: Tree, k: int, forks: seq<Fork>)
    decreases |forks|
  {
    if forks == [] then k <= Size(t)
    else
      var f := Last(forks);
      && k <= f.number && f.tree.children != [] && Numbered(t, f.number, Last(f.tree.children))
      && Pending(t, f.number + Size(Last(f.tree.children)), forks[..|forks| - 1])
  }

  lemma {:induction false} PendingBounds(t: Tree, k: int, forks: seq<Fork>)
    requires Pending(t, k, forks)
    ensures k <= Size(t)
    decreases |forks|
  {
    if forks != [] {
      PendingBounds(t, Last(forks).number + Size(Last(Last(forks).tree.children)), forks[..|forks| - 1]);
    }
  }

  lemma PendingSooner(t: Tree, k: int, sooner: int, forks: seq<Fork>)
    requires Pending(t, k, forks) && sooner <= k
    ensures Pending(t, sooner, forks)
  {
  }

  // Into a child, the last one or one with no frame left behind.
  lemma OrderDown(t: Tree, k: int, n: Tree, forks: seq<Fork>, entered: seq<int>, j: nat)
    requires InOrder(t, k, n, forks, entered) && j < |n.children|
    ensures InOrder(t, k + Start(n, j), n.children[j], forks, entered + [k])
  {
    NumberedChild(t, k, n, j);
    NumberRange(t, k, n);
    Ranges(n, j, j + 1);
    PendingSooner(t, k + Size(n), k + Start(n, j) + Size(n.children[j]), forks);
  }

  lemma PendingPush(t: Tree, k: int, forks: seq<Fork>, f: Fork)
    requires k <= f.number && f.tree.children != [] && Numbered(t, f.number, Last(f.tree.children))
    requires Pending(t, f.number + Size(Last(f.tree.children)), forks)
    ensures Pending(t, k, forks + [f])
  {
    assert (forks + [f])[..|forks|] == forks;
  }

  lemma OneLater(entered: seq<int>, k: int)
    requires Increasing(entered) && (entered != [] ==> Last(entered) < k)
    ensures Increasing(entered + [k])
  {
  }

  // Into a static child, with a frame for the wildcard child.
  lemma OrderFork(t: Tree, k: int, n: Tree, forks: seq<Fork>, entered: seq<int>, j: nat, f: Fork)
    requires InOrder(t, k, n, forks, entered) && j < |n.children| - 1
    requires f.tree == n && f.number == k + Start(n, |n.children| - 1)
    ensures InOrder(t, k + Start(n, j), n.children[j], forks + [f], entered + [k])
  {
    hide Numbered, Size, Start, Pending, Increasing;
    var last := |n.children| - 1;
    NumberedChild(t, k, n, j);
    NumberedChild(t, k, n, last);
    NumberRange(t, k, n);
    Ranges(n, j, last);
    Ranges(n, last, last + 1);
    PendingSooner(t, k + Size(n), f.number + Size(n.children[last]), forks);
    PendingPush(t, k + Start(n, j) + Size(n.children[j]), forks, f);
    OneLater(entered, k);
  }

  // Back to the last frame.
  lemma OrderBack(t: Tree, k: int, n: Tree, forks: seq<Fork>, entered: seq<int>)
    requires InOrder(t, k, n, forks, entered) && forks != []
    ensures var f := Last(forks);
            && f.tree.children != [] && k + Size(n) <= f.number
            && InOrder(t, f.number, Last(f.tree.children), forks[..|forks| - 1], entered + [k])
  {
    NumberRange(t, k, n);
  }

  // Nodes are entered at most once: there are never more entries than nodes.
  lemma EnteredOnce(t: Tree, k: int, n: Tree, forks: seq<Fork>, entered: seq<int>)
    requires InOrder(t, k, n, forks, entered)
    ensures Increasing(entered + [k]) && forall i | 0 <= i < |entered + [k]| :: 0 <= (entered + [k])[i] < Size(t)
    ensures |entered| + Size(n) <= Size(t)
  {
    NumberRange(t, k, n);
    AtMost(entered, k);
  }

  lemma {:induction false} AtMost(s: seq<int>, k: int)
    requires Increasing(s) && (forall i | 0 <= i < |s| :: 0 <= s[i] < k) && 0 <= k
    ensures |s| <= k
    decreases |s|
  {
    if s != [] {
      AtMost(s[..|s| - 1], Last(s));
    }
  }

  // ---- The state of the backtracking walk ----

  predicate AtNode(cur: Tree, path: string, via: bool) {
    Walkable(cur) && (via ==> WildLocal(cur) && path != "")
  }

  // Captures at an earlier fork begin those at a later one.
  predicate Nested(forks: seq<Fork>, caps: seq<Param>) {
    && (forall i | 0 <= i < |forks| :: forks[i].caps <= caps)
    && forall i, j | 0 <= i < j < |forks| :: forks[i].caps <= forks[j].caps
  }

  // A walk as it stands: the node it is at and that node's preorder number,
  // the path left, whether it comes to the node as to a wildcard child, the
  // trailing-slash flag and whether it was ever set, the forks to go back to,
  // the captures, and the numbers of the nodes entered before.
  datatype Visit = Visit(cur: Tree, path: string, via: bool, tsr: bool, saw: bool,
                         forks: seq<Fork>, caps: seq<Param>, k: int, entered: seq<int>)

  // The lookup in `t` that comes to `whole` can be finished from here.
  ghost predicate Sound(whole: Outcome, t: Tree, ci: bool, v: Visit) {
    && AtNode(v.cur, v.path, v.via) && Leads(whole, v.forks, v.caps, v.saw, Current(v, ci), ci)
    && Nested(v.forks, v.caps) && InOrder(t, v.k, v.cur, v.forks, v.entered)
  }

  // What the current attempt comes to.
  function Current(v: Visit, ci: bool): Outcome
    requires AtNode(v.cur, v.path, v.via)
  {
    if v.via then SearchWild(v.cur, v.path, ci, v.tsr) else Search(v.cur, v.path, ci, v.tsr)
  }

  function AtRoot(t: Tree, url: string): Visit { Visit(t, url, false, false, false, [], [], 0, []) }

  // On to child `j` of the current node.
  function Onto(v: Visit, j: nat, path: string, via: bool): Visit
    requires j < |v.cur.children|
  {
    v.(cur := v.cur.children[j], path := path, via := via, k := v.k + Start(v.cur, j), entered := v.entered + [v.k])
  }

  // The fork left behind at the current node.
  function ForkAt(v: Visit, rest: string): Fork
    requires v.cur.children != []
  {
    Fork(v.cur, rest, v.caps, v.k + Start(v.cur, |v.cur.children| - 1))
  }

  // Into static child `j`; a wildcard sibling is remembered in a fork.
  function IntoChild(v: Visit, j: nat, rest: string): Visit
    requires j < |v.cur.children|
  {
    var u := Onto(v, j, rest, false);
    if v.cur.wildChild then u.(forks := v.forks + [ForkAt(v, rest)]) else u
  }

  // Back to the last fork, after a dead end that leaves the flag at `x`.
  function Back(v: Visit, x: bool): Visit
    requires v.forks != [] && Last(v.forks).tree.children != []
  {
    var f := Last(v.forks);
    Visit(Last(f.tree.children), f.rest, true, x, v.saw || x, v.forks[..|v.forks| - 1], f.caps, f.number, v.entered + [v.k])
  }

  lemma SoundParts(whole: Outcome, t: Tree, ci: bool, v: Visit)
    requires Sound(whole, t, ci, v)
    ensures AtNode(v.cur, v.path, v.via) && Nested(v.forks, v.caps) && 0 <= v.k < Size(t)
  {
    NumberRange(t, v.k, v.cur);
  }

  lemma SoundStart(t: Tree, url: string, ci: bool)
    requires Walkable(t)
    ensures Sound(Search(t, url, ci, false), t, ci, AtRoot(t, url))
  {
    hide Search;
    var o := Search(t, url, ci, false);
    assert o.Hit? ==> [] + o.found.caps == o.found.caps;
  }

  lemma SoundStatic(whole: Outcome, t: Tree, ci: bool, v: Visit, step: TextStep)
    requires Sound(whole, t, ci, v) && !v.via && !v.cur.wildChild
    requires TextMeans(v.cur, v.path, ci, v.tsr, step) && step.ToStatic?
    ensures step.j < |v.cur.children| && Sound(whole, t, ci, Onto(v, step.j, step.rest, false))
  {
    hide Search, SearchWild, Unwind, InOrder;
    OrderDown(t, v.k, v.cur, v.forks, v.entered, step.j);
  }

  // A static child comes before a wildcard child.
  lemma StaticBefore(t: Tree, path: string, ci: bool, tsr: bool, step: TextStep)
    requires Walkable(t) && TextMeans(t, path, ci, tsr, step) && step.ToStatic? && t.wildChild
    ensures step.j < |t.children| - 1
  {
    hide Search, SearchWild;
  }

  lemma ForkOrder(whole: Outcome, t: Tree, ci: bool, v: Visit, step: TextStep)
    requires Sound(whole, t, ci, v) && !v.via && v.cur.wildChild
    requires TextMeans(v.cur, v.path, ci, v.tsr, step) && step.ToStatic?
    ensures step.j < |v.cur.children| && v.cur.children != []
    ensures var u := IntoChild(v, step.j, step.rest); InOrder(t, u.k, u.cur, u.forks, u.entered) && Nested(u.forks, u.caps)
  {
    hide Search, SearchWild, Leads, InOrder, Nested, TextMeans;
    StaticBefore(v.cur, v.path, ci, v.tsr, step);
    var f := ForkAt(v, step.rest);
    ForkIs(v, step.j, step.rest);
    OrderFork(t, v.k, v.cur, v.forks, v.entered, step.j, f);
    NestedFork(v.forks, v.caps, f);
  }

  lemma ForkIs(v: Visit, j: nat, rest: string)
    requires j < |v.cur.children| && v.cur.wildChild
    ensures var f, u := ForkAt(v, rest), IntoChild(v, j, rest);
            && f.tree == v.cur && f.caps == v.caps && f.number == v.k + Start(v.cur, |v.cur.children| - 1)
            && u == Visit(v.cur.children[j], rest, false, v.tsr, v.saw, v.forks + [f], v.caps, v.k + Start(v.cur, j), v.entered + [v.k])
  {
  }

  lemma SoundFork(whole: Outcome, t: Tree, ci: bool, v: Visit, step: TextStep)
    requires Sound(whole, t, ci, v) && !v.via && v.cur.wildChild
    requires TextMeans(v.cur, v.path, ci, v.tsr, step) && step.ToStatic?
    ensures step.j < |v.cur.children| && v.cur.children != []
    ensures Sound(whole, t, ci, IntoChild(v, step.j, step.rest))
  {
    ForkOrder(whole, t, ci, v, step);
    LeadsIntoFork(whole, ci, v, step);
    assert Walkable(v.cur.children[step.j]);
    ForkIs(v, step.j, step.rest);
    hide *;
    SoundPacked(whole, t, ci, IntoChild(v, step.j, step.rest));
  }

  lemma SoundPacked(whole: Outcome, t: Tree, ci: bool, u: Visit)
    requires Walkable(u.cur) && !u.via
    requires Leads(whole, u.forks, u.caps, u.saw, Search(u.cur, u.path, ci, u.tsr), ci)
    requires InOrder(t, u.k, u.cur, u.forks, u.entered) && Nested(u.forks, u.caps)
    ensures Sound(whole, t, ci, u)
  {
    hide Search, SearchWild, Walkable, InOrder, Leads, Nested;
  }

  lemma NestedFork(forks: seq<Fork>, caps: seq<Param>, f: Fork)
    requires Nested(forks, caps) && f.caps == caps
    ensures Nested(forks + [f], caps)
  {
  }

  lemma LeadsIntoFork(whole: Outcome, ci: bool, v: Visit, step: TextStep)
    requires Walkable(v.cur) && TextMeans(v.cur, v.path, ci, v.tsr, step) && step.ToStatic? && v.cur.wildChild
    requires Leads(whole, v.forks, v.caps, v.saw, Search(v.cur, v.path, ci, v.tsr), ci)
    ensures Leads(whole, v.forks + [ForkAt(v, step.rest)], v.caps, v.saw,
                  Search(v.cur.children[step.j], step.rest, ci, v.tsr), ci)
  {
    hide Search, SearchWild, Leads, Unwind;
    LeadsFork(whole, v.forks, ForkAt(v, step.rest), v.saw, Search(v.cur.children[step.j], step.rest, ci, v.tsr), ci);
  }

  lemma SoundWild(whole: Outcome, t: Tree, ci: bool, v: Visit, step: TextStep)
    requires Sound(whole, t, ci, v) && !v.via
    requires TextMeans(v.cur, v.path, ci, v.tsr, step) && step.ToWild?
    ensures v.cur.children != [] && Sound(whole, t, ci, Onto(v, |v.cur.children| - 1, step.left, true))
  {
    hide Search, SearchWild, Unwind, InOrder;
    OrderDown(t, v.k, v.cur, v.forks, v.entered, |v.cur.children| - 1);
  }

  lemma SoundNext(whole: Outcome, t: Tree, ci: bool, v: Visit, cap: Param, step: WildStep)
    requires Sound(whole, t, ci, v) && v.via
    requires WildMeans(v.cur, v.path, ci, v.tsr, cap, step) && step.ToNext?
    ensures v.cur.children != [] && Sound(whole, t, ci, Onto(v, 0, step.rest, false).(caps := v.caps + [cap]))
  {
    hide Search, SearchWild, Unwind, InOrder;
    OrderDown(t, v.k, v.cur, v.forks, v.entered, 0);
    PrependedCaptured(v.caps, cap, Search(v.cur.children[0], step.rest, ci, v.tsr));
  }

  lemma SoundBack(whole: Outcome, t: Tree, ci: bool, v: Visit, x: bool)
    requires Sound(whole, t, ci, v) && Current(v, ci) == Miss(x, x) && v.forks != []
    ensures Last(v.forks).tree.children != [] && v.k < Last(v.forks).number && Sound(whole, t, ci, Back(v, x))
  {
    hide Search, SearchWild, Unwind, InOrder;
    LeadsBack(whole, v.forks, v.caps, v.saw, x, ci);
    OrderBack(t, v.k, v.cur, v.forks, v.entered);
  }

  // The walk is over: what it returns.
  lemma SoundEnd(whole: Outcome, t: Tree, ci: bool, v: Visit)
    requires Sound(whole, t, ci, v)
    ensures var o := Current(v, ci);
            && (o.Hit? ==> whole == Prepended(v.caps, o))
            && (o.Miss? && v.forks == [] ==> whole == Miss(o.last, v.saw || o.saw))
  {
    hide Search, SearchWild, InOrder;
  }

  // ---- Runs of the backtracking walk ----

  predicate Ready(v: Visit) { AtNode(v.cur, v.path, v.via) && ForksOk(v.forks) }

  // The attempt ends here without a match and leaves the flag at `x`.
  predicate DeadAt(v: Visit, ci: bool, x: bool)
    requires AtNode(v.cur, v.path, v.via)
  {
    if v.via then WildStepAt(v.cur, v.path, ci, v.tsr) == WildFail(x)
    else TextStepAt(v.cur, v.path, ci, v.tsr) == TextFail(x)
  }

  function BackFrom(v: Visit, x: bool): Option<Visit>
    requires ForksOk(v.forks)
  {
    if v.forks == [] then None else Some(Back(v, x))
  }

  // The visit after `v`: a child, or the wildcard child of the last fork after
  // a dead end. There is none after a match, or a dead end without a fork.
  function Next(v: Visit, ci: bool): Option<Visit>
    requires Ready(v)
  {
    if v.via then
      match WildStepAt(v.cur, v.path, ci, v.tsr)
      case WildMatch(_, _) => None
      case WildFail(x) => BackFrom(v, x)
      case ToNext(rest) => Some(Onto(v, 0, rest, false).(caps := v.caps + [CaptureAt(v.cur, v.path)]))
    else
      match TextStepAt(v.cur, v.path, ci, v.tsr)
      case TextMatch(_, _) => None
      case TextFail(x) => BackFrom(v, x)
      case ToStatic(j, rest) => Some(IntoChild(v, j, rest))
      case ToWild(rest) => Some(Onto(v, |v.cur.children| - 1, rest, true))
  }

  // The visits of a lookup of `url`, so far.
  ghost predicate Run(t: Tree, url: string, ci: bool, run: seq<Visit>) {
    && run != [] && run[0] == AtRoot(t, url)
    && (forall i | 0 <= i < |run| :: Ready(run[i]))
    && forall i | 0 < i < |run| :: Next(run[i - 1], ci) == Some(run[i])
  }

  // ... and all of them.
  ghost predicate WholeRun(t: Tree, url: string, ci: bool, run: seq<Visit>) {
    Run(t, url, ci, run) && Next(Last(run), ci).None?
  }

  lemma RunOn(t: Tree, url: string, ci: bool, run: seq<Visit>, v: Visit)
    requires Run(t, url, ci, run) && Next(Last(run), ci) == Some(v) && Ready(v)
    ensures Run(t, url, ci, run + [v])
  {
    hide Next, Ready;
  }

  lemma SoundReady(whole: Outcome, t: Tree, ci: bool, v: Visit)
    requires Sound(whole, t, ci, v)
    ensures Ready(v) && Numbered(t, v.k, v.cur) && |v.entered| + Size(v.cur) <= Size(t)
  {
    hide Search, SearchWild;
    EnteredOnce(t, v.k, v.cur, v.forks, v.entered);
  }

  // `u` comes after `v`, and the lookup can be finished from it.
  ghost predicate GoesTo(whole: Outcome, t: Tree, ci: bool, v: Visit, u: Visit) {
    Sound(whole, t, ci, u) && v.k < u.k && u.entered == v.entered + [v.k]
  }

  lemma SoundDead(whole: Outcome, t: Tree, ci: bool, v: Visit, x: bool)
    requires Sound(whole, t, ci, v) && Current(v, ci) == Miss(x, x) && ForksOk(v.forks)
    ensures BackFrom(v, x).Some? ==> GoesTo(whole, t, ci, v, BackFrom(v, x).value)
  {
    if v.forks != [] {
      SoundBack(whole, t, ci, v, x);
      hide Search, SearchWild, Sound;
    }
  }

  // A child has a higher number than its parent.
  lemma GoesDown(whole: Outcome, t: Tree, ci: bool, v: Visit, u: Visit, j: nat)
    requires Sound(whole, t, ci, u) && j < |v.cur.children| && u.k == v.k + Start(v.cur, j) && u.entered == v.entered + [v.k]
    ensures GoesTo(whole, t, ci, v, u)
  {
    hide Sound;
  }

  lemma SoundOnWild(whole: Outcome, t: Tree, ci: bool, v: Visit)
    requires Sound(whole, t, ci, v) && Ready(v) && v.via
    ensures Next(v, ci).Some? ==> GoesTo(whole, t, ci, v, Next(v, ci).value)
  {
    var step := WildStepAt(v.cur, v.path, ci, v.tsr);
    hide Search, SearchWild, Sound, Walkable, GoesTo, WildStepAt;
    match step
    case WildMatch(_, _) =>
    case WildFail(x) => SoundDead(whole, t, ci, v, x);
    case ToNext(_) =>
      SoundNext(whole, t, ci, v, CaptureAt(v.cur, v.path), step);
      GoesDown(whole, t, ci, v, Next(v, ci).value, 0);
  }

  lemma SoundOnText(whole: Outcome, t: Tree, ci: bool, v: Visit)
    requires Sound(whole, t, ci, v) && Ready(v) && !v.via
    ensures Next(v, ci).Some? ==> GoesTo(whole, t, ci, v, Next(v, ci).value)
  {
    var step := TextStepAt(v.cur, v.path, ci, v.tsr);
    hide Search, SearchWild, Sound, Walkable, GoesTo, TextStepAt;
    match step
    case TextMatch(_, _) =>
    case TextFail(x) => SoundDead(whole, t, ci, v, x);
    case ToStatic(j, _) =>
      if v.cur.wildChild {
        SoundFork(whole, t, ci, v, step);
      } else {
        SoundStatic(whole, t, ci, v, step);
      }
      GoesDown(whole, t, ci, v, Next(v, ci).value, j);
    case ToWild(_) =>
      SoundWild(whole, t, ci, v, step);
      GoesDown(whole, t, ci, v, Next(v, ci).value, |v.cur.children| - 1);
  }

  // The lookup can be finished from the next visit if it can from this one.
  lemma SoundOn(whole: Outcome, t: Tree, ci: bool, v: Visit)
    requires Sound(whole, t, ci, v)
    ensures Ready(v) && (Next(v, ci).Some? ==> GoesTo(whole, t, ci, v, Next(v, ci).value))
  {
    SoundReady(whole, t, ci, v);
    hide *;
    if v.via { SoundOnWild(whole, t, ci, v); } else { SoundOnText(whole, t, ci, v); }
  }

  lemma {:induction false} SoundRun(t: Tree, url: string, ci: bool, run: seq<Visit>)
    requires Walkable(t) && Run(t, url, ci, run)
    ensures forall i | 0 <= i < |run| :: Sound(Search(t, url, ci, false), t, ci, run[i]) && |run[i].entered| == i
    ensures forall i | 0 < i < |run| :: run[i - 1].k < run[i].k
  {
    hide Search, Sound, Next, Ready;
    var whole := Search(t, url, ci, false);
    SoundStart(t, url, ci);
    for i := 1 to |run|
      invariant forall j | 0 <= j < i :: Sound(whole, t, ci, run[j]) && |run[j].entered| == j
      invariant forall j | 0 < j < i :: run[j - 1].k < run[j].k
    {
      SoundOn(whole, t, ci, run[i - 1]);
    }
  }

  // From `v` to `u` one fork is pushed, for the node `v` is at.
  ghost predicate PushesOne(v: Visit, u: Visit) {
    v.cur.wildChild && v.cur.children != [] && exists rest :: u.forks == v.forks + [ForkAt(v, rest)]
  }

  // However the path is chosen, a lookup enters every node of the tree at most
  // once: its visits are at different nodes, each further in preorder than the
  // last, and no more than the tree has nodes. A visit pushes at most one
  // fork, for the node it is at, so no node is pushed twice.
  lemma RunVisitsOnce(t: Tree, url: string, ci: bool, run: seq<Visit>)
    requires Walkable(t) && Run(t, url, ci, run)
    ensures |run| <= Size(t)
    ensures forall i | 0 <= i < |run| :: Numbered(t, run[i].k, run[i].cur)
    ensures forall i, j | 0 <= i < j < |run| :: run[i].k < run[j].k
    ensures forall i | 0 <= i < |run| - 1 && |run[i].forks| < |run[i + 1].forks| :: PushesOne(run[i], run[i + 1])
  {
    SoundRun(t, url, ci, run);
    SoundReady(Search(t, url, ci, false), t, ci, run[|run| - 1]);
    hide Search, Sound, Numbered, Size, Walkable;
    forall i | 0 <= i < |run| ensures Numbered(t, run[i].k, run[i].cur) {
      SoundReady(Search(t, url, ci, false), t, ci, run[i]);
    }
    forall i, j | 0 <= i < j < |run| ensures run[i].k < run[j].k {
      Later(run, i, j);
    }
    forall i | 0 <= i < |run| - 1 && |run[i].forks| < |run[i + 1].forks| ensures PushesOne(run[i], run[i + 1]) {
      PushedFork(run[i], run[i + 1], ci);
    }
  }

  lemma PushedFork(v: Visit, u: Visit, ci: bool)
    requires Ready(v) && Next(v, ci) == Some(u) && |u.forks| > |v.forks|
    ensures PushesOne(v, u)
  {
    hide WildStepAt;
    var step := TextStepAt(v.cur, v.path, ci, v.tsr);
    assert !v.via && step.ToStatic?;
    assert u.forks == v.forks + [ForkAt(v, step.rest)];
  }

  lemma {:induction false} Later(run: seq<Visit>, i: nat, j: nat)
    requires i < j < |run| && forall l | 0 < l < |run| :: run[l - 1].k < run[l].k
    ensures run[i].k < run[j].k
    decreases j
  {
    if i < j - 1 { Later(run, i, j - 1); }
  }

  // A lookup that is over returns what its last visit comes to.
  lemma RunAnswers(t: Tree, url: string, ci: bool, run: seq<Visit>)
    requires Walkable(t) && WholeRun(t, url, ci, run)
    ensures var v, whole := Last(run), Search(t, url, ci, false);
            && AtNode(v.cur, v.path, v.via)
            && var o := Current(v, ci);
               if o.Hit? then whole == Prepended(v.caps, o) else v.forks == [] && whole == Miss(o.last, v.saw || o.saw)
  {
    SoundRun(t, url, ci, run);
    var v, whole := Last(run), Search(t, url, ci, false);
    assert Sound(whole, t, ci, v);
    SoundEnd(whole, t, ci, v);
    RunEnds(v, ci);
  }

  lemma RunEnds(v: Visit, ci: bool)
    requires Ready(v) && Next(v, ci).None?
    ensures Current(v, ci).Hit? || v.forks == []
  {
    hide Search, SearchWild, Walkable;
  }
}
