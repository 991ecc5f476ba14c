// The walkers over the published nodes: the optimistic walk, the backtracking
// walk it falls back to, and the walk for trees without wildcards. Each is
// proved to return what TreeLookup says.
module Walkers {
  import opened Wrappers
  import opened Patterns
  import opened RouteTree
  import opened RouteNode
  import opened TreeLookup
  import opened Registration
  import opened Backtracking

  // ---- Captured parameters ----

  const INLINE := 3

  // The first parameters live in a fixed buffer, the rest in a slice.
  class ParamsBuf {
    var count: nat
    const buf: array<Param>
    var overflow: seq<Param>

    ghost predicate Valid()
      reads this
    {
      buf.Length == INLINE && |overflow| == Spilled(count)
    }

    // The captures, in order.
    ghost function View(): (v: seq<Param>)
      requires Valid()
      reads this, buf
      ensures |v| == count
    {
      if count <= INLINE then buf[..count] else buf[..INLINE] + overflow
    }

    constructor ()
      ensures Valid() && View() == [] && fresh(buf)
    {
      count, overflow := 0, [];
      buf := new Param[INLINE](_ => Param("", ""));
    }

    method Add(p: Param)
      requires Valid()
      modifies this, buf
      ensures Valid() && View() == old(View()) + [p]
    {
      if count < INLINE {
        buf[count] := p;
      } else {
        overflow := overflow + [p];
      }
      count := count + 1;
    }

    // Forgets everything captured after a point recorded earlier.
    method Rewind(paramCount: nat, overflowLen: nat)
      requires Valid() && paramCount <= count && overflowLen == Spilled(paramCount)
      modifies this
      ensures Valid() && View() == old(View())[..paramCount]
    {
      count := paramCount;
      overflow := overflow[..overflowLen];
    }

    // All captures in one slice.
    method Params() returns (all: seq<Param>)
      requires Valid()
      ensures all == View()
    {
      if overflow == [] {
        return buf[..count];
      }
      all := buf[..INLINE] + overflow;
    }
  }

  // How many of `count` captures do not fit in the fixed buffer.
  function Spilled(count: nat): nat { if count <= INLINE then 0 else count - INLINE }

  function Touched(params: ParamsBuf?): set<object> { if params == null then {} else {params, params.buf} }

  // `params` may be absent; what is captured then is not recorded.
  ghost predicate Records(params: ParamsBuf?, caps: seq<Param>)
    reads Touched(params)
  {
    params != null ==> params.Valid() && params.View() == caps
  }

  lemma RecordsValid(params: ParamsBuf?, caps: seq<Param>)
    requires Records(params, caps)
    ensures params != null ==> params.Valid()
  {
  }

  // ---- Loops over bytes ----

  method PrefixMatches(s: string, prefix: string, ci: bool) returns (yes: bool)
    ensures yes == PrefixMatch(s, prefix, ci) && (yes ==> |s| == |prefix|)
  {
    if !ci {
      assert PrefixMatch(s, prefix, false) ==> s == prefix;
      return s == prefix;
    }
    if |s| != |prefix| {
      return false;
    }
    for i := 0 to |s|
      invariant forall k | 0 <= k < i :: FoldEq(s[k], prefix[k], ci)
    {
      if !FoldEq(s[i], prefix[i], ci) {
        return false;
      }
    }
    return true;
  }

  lemma {:induction false} FirstIndex(indices: string, c: char, ci: bool, i: nat)
    requires i < |indices| && FoldEq(c, indices[i], ci)
    requires forall k | 0 <= k < i :: !FoldEq(c, indices[k], ci)
    ensures FindIndex(indices, c, ci) == i
  {
  }

  method MatchingIndex(indices: string, c: char, ci: bool) returns (j: int)
    ensures j == FindIndex(indices, c, ci)
  {
    for i := 0 to |indices|
      invariant forall k | 0 <= k < i :: !FoldEq(c, indices[k], ci)
    {
      if FoldEq(c, indices[i], ci) {
        FirstIndex(indices, c, ci, i);
        return i;
      }
    }
    return -1;
  }

  // The scan for the end of a segment whose first byte is not '/'.
  method SegmentScan(path: string) returns (end: nat)
    requires path != "" && path[0] != '/'
    ensures end == SegmentEnd(path)
  {
    end := |path|;
    var i := 1;
    while i < |path|
      invariant 1 <= i <= |path| && end == |path|
      invariant forall k | 0 <= k < i :: path[k] != '/'
    {
      if path[i] == '/' {
        end := i;
        break;
      }
      i := i + 1;
    }
    SegmentEndIs(path, end);
  }

  // ---- One node ----

  lemma RepKids(n: Node, t: Tree, fp: set<object>)
    requires Rep(n, t, fp)
    ensures Fields(n, t) && n.children.Length == |t.children|
    ensures forall j | 0 <= j < |t.children| :: Rep(n.children[j], t.children[j], fp)
  {
    forall j | 0 <= j < |t.children| ensures Rep(n.children[j], t.children[j], fp) {
      assert n.children[..][j] == n.children[j];
    }
  }

  // The trailing-slash flag at a node without a handler where the path ends.
  method EndHint(n: Node, path: string, ghost t: Tree, ghost fp: set<object>) returns (tsr: bool)
    requires Rep(n, t, fp) && Walkable(t)
    ensures tsr == SlashHint(t, path)
  {
    RepKids(n, t, fp);
    hide Rep, RepAll;
    for j := 0 to |n.indices|
      invariant '/' !in n.indices[..j]
    {
      if n.indices[j] == '/' {
        SlashAt(n.indices, j);
        RepKids(n.children[j], t.children[j], fp);
        var m := n.children[j];
        if m.wildChild && m.children.Length > 0 {
          RepKids(m.children[0], t.children[j].children[0], fp);
        }
        return (m.path == "/" && m.route.Some?)
            || (m.wildChild && m.children.Length > 0 && m.children[0].nType == WildcardNode && m.children[0].route.Some?);
      }
    }
    assert IndexOf(n.indices, '/') < 0;
    // The code also asks for a single index '/', which the loop has ruled out.
    tsr := path == "/";
  }

  lemma SlashAt(indices: string, j: nat)
    requires j < |indices| && indices[j] == '/' && '/' !in indices[..j]
    ensures IndexOf(indices, '/') == j
  {
  }

  method CutHint(n: Node, path: string, ci: bool, ghost t: Tree, ghost fp: set<object>) returns (tsr: bool)
    requires Rep(n, t, fp)
    ensures tsr == ShortHint(t, path, ci)
  {
    tsr := path == "/";
    if !tsr && |n.path| == |path| + 1 && n.path[|path|] == '/' {
      var same := PrefixMatches(path, n.path[..|n.path| - 1], ci);
      tsr := same && n.route.Some?;
    }
  }

  // A node whose text has to match; `tsr` is the flag as it stands.
  method TakeText(n: Node, path: string, ci: bool, tsr: bool, ghost t: Tree, ghost fp: set<object>)
    returns (step: TextStep)
    requires Rep(n, t, fp) && Walkable(t)
    ensures step == TextStepAt(t, path, ci, tsr)
  {
    RepKids(n, t, fp);
    hide Rep, RepAll, PrefixMatch;
    if |path| > |n.path| {
      var same := PrefixMatches(path[..|n.path|], n.path, ci);
      if !same {
        return TextFail(tsr);
      }
      var rest := path[|n.path|..];
      var j := MatchingIndex(n.indices, rest[0], ci);
      if j >= 0 {
        return ToStatic(j, rest);
      }
      if !n.wildChild {
        return TextFail(rest == "/" && n.route.Some?);
      }
      return ToWild(rest);
    }
    var ends := PrefixMatches(path, n.path, ci);
    if ends && |path| == |n.path| {
      if n.route.Some? {
        return TextMatch(n.route.value, n.pattern);
      }
      var hint := EndHint(n, path, t, fp);
      return TextFail(hint);
    }
    var hint := CutHint(n, path, ci, t, fp);
    return TextFail(hint);
  }

  // The segment a named or regular expression node captures, or none.
  method TakeSegment(n: Node, path: string, ghost t: Tree, ghost fp: set<object>) returns (end: int)
    requires Rep(n, t, fp) && WildLocal(t) && t.nType != WildcardNode && path != ""
    ensures var e := SegmentEnd(path);
            if e == 0 || !Accepts(t, path[..e]) then end < 0 else end == e
  {
    end := -1;
    if path[0] == '/' {
      return;
    }
    var e := SegmentScan(path);
    if n.nType == RegexNode && !n.regexp.value(path[..e]) {
      return;
    }
    end := e;
  }

  // A wildcard node, which captures before it is known whether the rest fits.
  method TakeWild(n: Node, path: string, ci: bool, tsr: bool, params: ParamsBuf?, ghost caps: seq<Param>,
                  ghost t: Tree, ghost fp: set<object>)
    returns (step: WildStep, ghost now: seq<Param>)
    requires Rep(n, t, fp) && Walkable(t) && WildLocal(t) && path != ""
    requires Records(params, caps) && Touched(params) !! fp
    modifies Touched(params)
    ensures step == WildStepAt(t, path, ci, tsr)
    ensures Records(params, now) && caps <= now && (!step.WildFail? ==> now == caps + [CaptureAt(t, path)])
  {
    RepKids(n, t, fp);
    hide Rep, RepAll;
    now := caps;
    if n.nType == WildcardNode {
      if params != null {
        params.Add(Param(n.path[2..], path));
      }
      now := caps + [CaptureAt(t, path)];
      if n.route.Some? {
        return WildMatch(n.route.value, n.pattern), now;
      }
      return WildFail(tsr), now;
    }
    var end := TakeSegment(n, path, t, fp);
    if end < 0 {
      return WildFail(tsr), now;
    }
    if params != null {
      params.Add(Param(if n.nType == RegexNode then n.path[1..n.nameEnd] else n.path[1..], path[..end]));
    }
    now := caps + [CaptureAt(t, path)];
    if end == |path| {
      if n.route.Some? {
        return WildMatch(n.route.value, n.pattern), now;
      }
      if n.children.Length == 1 {
        assert Rep(n.children[0], t.children[0], fp);
        RepKids(n.children[0], t.children[0], fp);
        return WildFail(n.children[0].path == "/" && n.children[0].route.Some?), now;
      }
      return WildFail(tsr), now;
    }
    if n.children.Length > 0 {
      return ToNext(path[end..]), now;
    }
    return WildFail(|path| == end + 1), now;
  }

  // ---- The walkers ----

  // A walker's results against what the lookup returns.
  predicate Returns(answer: Answer, handler: Option<Handler>, pattern: string, tsr: bool) {
    && tsr == answer.tsr
    && match answer.found
       case Some(f) => handler == Some(f.handler) && pattern == f.pattern
       case None => handler.None? && pattern == ""
  }

  // The optimistic walk: if the attempt comes to `o`, so does the lookup,
  // unless it is a miss behind a fork.
  ghost predicate Predicts(whole: Outcome, forked: bool, caps: seq<Param>, o: Outcome) {
    && (o.Hit? ==> whole == Prepended(caps, o))
    && (o.Miss? && !forked ==> whole == o)
  }

  // What the attempt from here comes to, with the flag unset.
  function Attempt(cur: Tree, path: string, ci: bool, via: bool): Outcome
    requires AtNode(cur, path, via)
  {
    if via then SearchWild(cur, path, ci, false) else Search(cur, path, ci, false)
  }

  lemma PredictsStart(whole: Outcome)
    ensures Predicts(whole, false, [], whole)
  {
    assert whole.Hit? ==> [] + whole.found.caps == whole.found.caps;
  }

  lemma PredictsText(whole: Outcome, forked: bool, caps: seq<Param>, t: Tree, path: string, ci: bool, step: TextStep)
    requires Walkable(t) && step == TextStepAt(t, path, ci, false)
    requires Predicts(whole, forked, caps, Search(t, path, ci, false))
    ensures match step
            case TextMatch(h, p) => whole == Hit(Found(h, p, caps), false)
            case TextFail(x) => !forked ==> whole == Miss(x, x)
            case ToStatic(j, rest) =>
              && j < |t.children| && Walkable(t.children[j]) && Size(t.children[j]) < Size(t)
              && Predicts(whole, forked || t.wildChild, caps, Search(t.children[j], rest, ci, false))
            case ToWild(rest) =>
              && t.children != [] && AtNode(Last(t.children), rest, true) && Size(Last(t.children)) < Size(t)
              && Predicts(whole, forked, caps, SearchWild(Last(t.children), rest, ci, false))
  {
    hide Search, SearchWild, TextStepAt;
    assert caps + [] == caps;
    if step.ToStatic? { ElementSize(t.children, step.j); }
    if step.ToWild? { ElementSize(t.children, |t.children| - 1); }
  }

  lemma PredictsWild(whole: Outcome, forked: bool, caps: seq<Param>, t: Tree, path: string, ci: bool, step: WildStep)
    requires AtNode(t, path, true) && step == WildStepAt(t, path, ci, false)
    requires Predicts(whole, forked, caps, SearchWild(t, path, ci, false))
    ensures step.WildMatch? ==> whole == Hit(Found(step.handler, step.pattern, caps + [CaptureAt(t, path)]), false)
    ensures step.WildFail? && !forked ==> whole == Miss(step.tsr, step.tsr)
    ensures step.ToNext? ==>
              && t.children != [] && Walkable(t.children[0]) && Size(t.children[0]) < Size(t)
              && Predicts(whole, forked, caps + [CaptureAt(t, path)], Search(t.children[0], step.rest, ci, false))
  {
    hide Search, SearchWild, WildStepAt;
    if step.ToNext? {
      ElementSize(t.children, 0);
      PrependedCaptured(caps, CaptureAt(t, path), Search(t.children[0], step.rest, ci, false));
    }
  }

  // The flag where the path ends, when there are no wildcards to consider.
  method EndHintStatic(n: Node, path: string, ghost t: Tree, ghost fp: set<object>) returns (tsr: bool)
    requires Rep(n, t, fp) && Walkable(t) && NoWild(t)
    ensures tsr == SlashHint(t, path)
  {
    RepKids(n, t, fp);
    hide Rep, RepAll;
    for j := 0 to |n.indices|
      invariant '/' !in n.indices[..j]
    {
      if n.indices[j] == '/' {
        SlashAt(n.indices, j);
        RepKids(n.children[j], t.children[j], fp);
        assert NoWild(t.children[j]);
        return n.children[j].path == "/" && n.children[j].route.Some?;
      }
    }
    tsr := path == "/";
  }

  method GetValueStatic(root: Node, url: string, ci: bool, ghost t: Tree, ghost fp: set<object>)
    returns (handler: Option<Handler>, pattern: string, tsr: bool)
    requires Rep(root, t, fp) && Walkable(t) && NoWild(t)
    ensures Returns(Lookup(t, url, ci), handler, pattern, tsr)
  {
    hide Rep, RepAll, PrefixMatch;
    handler, pattern, tsr := None, "", false;
    var n, path := root, url;
    ghost var cur := t;
    while true
      invariant Rep(n, cur, fp) && Walkable(cur) && NoWild(cur)
      invariant handler == None && pattern == "" && !tsr
      invariant Search(t, url, ci, false) == Search(cur, path, ci, false)
      decreases cur
    {
      RepKids(n, cur, fp);
      if |path| > |n.path| {
        var same := PrefixMatches(path[..|n.path|], n.path, ci);
        if !same {
          return;
        }
        path := path[|n.path|..];
        var j := MatchingIndex(n.indices, path[0], ci);
        if j < 0 {
          tsr := path == "/" && n.route.Some?;
          return;
        }
        n, cur := n.children[j], cur.children[j];
        continue;
      }
      var ends := PrefixMatches(path, n.path, ci);
      if ends && |path| == |n.path| {
        handler, pattern := n.route, n.pattern;
        if handler.None? {
          tsr := EndHintStatic(n, path, cur, fp);
        }
        return;
      }
      tsr := CutHint(n, path, ci, cur, fp);
      return;
    }
  }

  // ---- Frames ----

  datatype Resume = Resume(parent: Node, path: string, paramCount: nat, overflowLen: nat)

  // Two frames of their own, further ones in a slice.
  datatype Stack = Stack(n: nat, frame0: Option<Resume>, frame1: Option<Resume>, overflow: seq<Resume>)

  predicate StackOk(s: Stack) {
    && (s.n > 0 ==> s.frame0.Some?) && (s.n > 1 ==> s.frame1.Some?)
    && |s.overflow| == if s.n <= 2 then 0 else s.n - 2
  }

  // The frames in the order they were pushed.
  function Resumes(s: Stack): (fs: seq<Resume>)
    requires StackOk(s)
    ensures |fs| == s.n
  {
    if s.n == 0 then []
    else if s.n == 1 then [s.frame0.value]
    else [s.frame0.value, s.frame1.value] + s.overflow
  }

  function Push(s: Stack, f: Resume): (r: Stack)
    requires StackOk(s)
    ensures StackOk(r) && Resumes(r) == Resumes(s) + [f]
  {
    match s.n
    case 0 => s.(n := 1, frame0 := Some(f))
    case 1 => s.(n := 2, frame1 := Some(f))
    case _ => s.(n := s.n + 1, overflow := s.overflow + [f])
  }

  function Pop(s: Stack): (r: (Resume, Stack))
    requires StackOk(s) && s.n > 0
    ensures StackOk(r.1) && Resumes(s) == Resumes(r.1) + [r.0]
  {
    match s.n - 1
    case 0 => (s.frame0.value, s.(n := 0))
    case 1 => (s.frame1.value, s.(n := 1))
    case _ => (Last(s.overflow), s.(n := s.n - 1, overflow := s.overflow[..|s.overflow| - 1]))
  }

  // Each frame holds what its fork needs.
  ghost predicate ResumeIs(fr: Resume, f: Fork, params: ParamsBuf?, fp: set<object>)
    reads fp
  {
    && Rep(fr.parent, f.tree, fp) && fr.path == f.rest
    && (params != null ==> fr.paramCount == |f.caps| && fr.overflowLen == Spilled(|f.caps|))
  }

  ghost predicate ResumesAre(frs: seq<Resume>, forks: seq<Fork>, params: ParamsBuf?, fp: set<object>)
    reads fp
  {
    |frs| == |forks| && forall i | 0 <= i < |frs| :: ResumeIs(frs[i], forks[i], params, fp)
  }

  method PushFork(s: Stack, n: Node, path: string, params: ParamsBuf?, ghost f: Fork, ghost forks: seq<Fork>,
                  ghost fp: set<object>)
    returns (r: Stack)
    requires StackOk(s) && ResumesAre(Resumes(s), forks, params, fp)
    requires Rep(n, f.tree, fp) && path == f.rest && Records(params, f.caps)
    ensures StackOk(r) && ResumesAre(Resumes(r), forks + [f], params, fp)
  {
    hide Rep;
    if params != null {
      r := Push(s, Resume(n, path, params.count, |params.overflow|));
    } else {
      r := Push(s, Resume(n, path, 0, 0));
    }
  }

  // Back to the last frame, forgetting what was captured since.
  method PopFork(s: Stack, params: ParamsBuf?, ghost now: seq<Param>, ghost forks: seq<Fork>, ghost fp: set<object>)
    returns (r: Stack, wild: Node, path: string)
    requires StackOk(s) && s.n > 0 && ResumesAre(Resumes(s), forks, params, fp) && Touched(params) !! fp
    requires Records(params, now) && Last(forks).caps <= now && Last(forks).tree.children != []
    modifies Touched(params)
    ensures StackOk(r) && ResumesAre(Resumes(r), forks[..|forks| - 1], params, fp)
    ensures var f := Last(forks);
            path == f.rest && Rep(wild, Last(f.tree.children), fp) && Records(params, f.caps)
  {
    var (frame, rest) := Pop(s);
    r := rest;
    assert ResumeIs(frame, Last(forks), params, fp);
    if params != null {
      params.Rewind(frame.paramCount, frame.overflowLen);
    }
    assert ResumeIs(frame, Last(forks), params, fp);
    RepKids(frame.parent, Last(forks).tree, fp);
    wild := frame.parent.children[frame.parent.children.Length - 1];
    path := frame.path;
  }

  // ---- The full walk ----

  // The walk's variables hold what `v` says.
  ghost predicate Holding(n: Node, stack: Stack, params: ParamsBuf?, v: Visit, fp: set<object>)
    reads fp, Touched(params)
  {
    Rep(n, v.cur, fp) && StackOk(stack) && ResumesAre(Resumes(stack), v.forks, params, fp) && Records(params, v.caps)
  }

  // What one node leads to: the answer, a dead end, or another node.
  datatype Move = Answered(handler: Handler, pattern: string) | DeadEnd(tsr: bool) | GoTo(next: Node, path: string, via: bool)

  // The lookup goes on at `u`, the visit after `v`, with the flags as they are.
  ghost predicate Advances(ci: bool, v: Visit, u: Visit, path: string, via: bool) {
    && Ready(v) && Next(v, ci) == Some(u)
    && u.path == path && u.via == via && u.tsr == v.tsr && u.saw == v.saw
  }

  lemma AdvancesParts(ci: bool, v: Visit, u: Visit, path: string, via: bool)
    requires Advances(ci, v, u, path, via)
    ensures Ready(v) && Next(v, ci) == Some(u)
    ensures u.path == path && u.via == via && u.tsr == v.tsr && u.saw == v.saw
  {
    hide Next, Ready;
  }

  // The same walk, on to a child of the current node.
  lemma AtChild(n: Node, stack: Stack, params: ParamsBuf?, v: Visit, fp: set<object>, j: nat, path: string, via: bool)
    requires Holding(n, stack, params, v, fp) && j < |v.cur.children|
    ensures j < n.children.Length && Holding(n.children[j], stack, params, Onto(v, j, path, via), fp)
  {
    RepKids(n, v.cur, fp);
  }

  lemma AtParts(n: Node, stack: Stack, params: ParamsBuf?, v: Visit, fp: set<object>)
    requires Holding(n, stack, params, v, fp)
    ensures Rep(n, v.cur, fp) && StackOk(stack) && ResumesAre(Resumes(stack), v.forks, params, fp) && Records(params, v.caps)
    ensures n.wildChild == v.cur.wildChild && n.children.Length == |v.cur.children|
  {
    RepKids(n, v.cur, fp);
  }

  // Leaves a frame for the wildcard child behind.
  method LeaveFork(n: Node, stack: Stack, params: ParamsBuf?, rest: string, ghost v: Visit, ghost fp: set<object>)
    returns (after: Stack)
    requires Holding(n, stack, params, v, fp) && v.cur.children != []
    ensures Holding(n, after, params, v.(forks := v.forks + [ForkAt(v, rest)]), fp)
  {
    hide Rep, Resumes, ResumesAre;
    after := PushFork(stack, n, rest, params, ForkAt(v, rest), v.forks, fp);
  }

  lemma OntoForks(v: Visit, forks: seq<Fork>, j: nat, path: string, via: bool)
    requires j < |v.cur.children|
    ensures Onto(v.(forks := forks), j, path, via) == Onto(v, j, path, via).(forks := forks)
  {
  }

  // Into a static child, with a frame if there is a wildcard child as well.
  method IntoStatic(n: Node, stack: Stack, params: ParamsBuf?, j: nat, rest: string, ghost v: Visit, ghost fp: set<object>)
    returns (after: Stack)
    requires Holding(n, stack, params, v, fp) && j < |v.cur.children|
    ensures j < n.children.Length && Holding(n.children[j], after, params, IntoChild(v, j, rest), fp)
  {
    AtParts(n, stack, params, v, fp);
    hide Rep, Resumes, ResumesAre, StackOk, Records;
    after := stack;
    if n.wildChild {
      after := LeaveFork(n, stack, params, rest, v, fp);
      ghost var forks := v.forks + [ForkAt(v, rest)];
      OntoForks(v, forks, j, rest, false);
      AtChild(n, after, params, v.(forks := forks), fp, j, rest, false);
    } else {
      AtChild(n, stack, params, v, fp, j, rest, false);
    }
  }

  // What a step at a node whose text has to match leads to.
  lemma TextNext(ci: bool, v: Visit, step: TextStep)
    requires Ready(v) && !v.via && step == TextStepAt(v.cur, v.path, ci, v.tsr)
    ensures step.TextMatch? ==> Next(v, ci).None? && Current(v, ci) == Hit(Found(step.handler, step.pattern, []), v.tsr)
    ensures step.TextFail? ==> DeadAt(v, ci, step.tsr) && Current(v, ci) == Miss(step.tsr, step.tsr)
    ensures step.ToStatic? ==> step.j < |v.cur.children| && Advances(ci, v, IntoChild(v, step.j, step.rest), step.rest, false)
    ensures step.ToWild? ==>
              v.cur.children != [] && Advances(ci, v, Onto(v, |v.cur.children| - 1, step.left, true), step.left, true)
  {
    hide Search, SearchWild, TextStepAt;
  }

  // At a node whose text has to match.
  method VisitText(n: Node, stack: Stack, params: ParamsBuf?, ci: bool, tsr: bool, path: string,
                   ghost v: Visit, ghost fp: set<object>)
    returns (move: Move, after: Stack, ghost u: Visit)
    requires Holding(n, stack, params, v, fp) && Ready(v) && !v.via && v.path == path && v.tsr == tsr
    ensures move.Answered? ==> Next(v, ci).None? && Current(v, ci) == Hit(Found(move.handler, move.pattern, []), tsr)
    ensures move.DeadEnd? ==> DeadAt(v, ci, move.tsr) && Current(v, ci) == Miss(move.tsr, move.tsr) && after == stack
    ensures move.GoTo? ==> Holding(move.next, after, params, u, fp) && Advances(ci, v, u, move.path, move.via)
  {
    AtParts(n, stack, params, v, fp);
    var step := TakeText(n, path, ci, tsr, v.cur, fp);
    TextNext(ci, v, step);
    hide *;
    after, u := stack, v;
    match step
    case TextMatch(h, p) => move := Answered(h, p);
    case TextFail(x) => move := DeadEnd(x);
    case ToStatic(j, rest) =>
      after := IntoStatic(n, stack, params, j, rest, v, fp);
      move, u := GoTo(n.children[j], rest, false), IntoChild(v, j, rest);
    case ToWild(rest) =>
      AtChild(n, stack, params, v, fp, |v.cur.children| - 1, rest, true);
      move, u := GoTo(n.children[n.children.Length - 1], rest, true), Onto(v, |v.cur.children| - 1, rest, true);
  }

  // What a step at a wildcard node leads to.
  lemma WildNext(ci: bool, v: Visit, step: WildStep)
    requires Ready(v) && v.via && step == WildStepAt(v.cur, v.path, ci, v.tsr)
    ensures step.WildMatch? ==>
              Next(v, ci).None? && Current(v, ci) == Hit(Found(step.handler, step.pattern, [CaptureAt(v.cur, v.path)]), v.tsr)
    ensures step.WildFail? ==> DeadAt(v, ci, step.tsr) && Current(v, ci) == Miss(step.tsr, step.tsr)
    ensures step.ToNext? ==> v.cur.children != [] && Advances(ci, v, OntoNext(v, step.rest), step.rest, false)
  {
    hide Search, SearchWild, WildStepAt, Walkable;
  }

  function OntoNext(v: Visit, rest: string): Visit
    requires AtNode(v.cur, v.path, v.via) && v.via && v.cur.children != []
  {
    Onto(v, 0, rest, false).(caps := v.caps + [CaptureAt(v.cur, v.path)])
  }

  lemma AtNext(n: Node, stack: Stack, params: ParamsBuf?, v: Visit, now: seq<Param>, fp: set<object>, rest: string)
    requires AtNode(v.cur, v.path, v.via) && v.via && v.cur.children != []
    requires Holding(n, stack, params, v.(caps := now), fp) && now == v.caps + [CaptureAt(v.cur, v.path)]
    ensures 0 < n.children.Length && Holding(n.children[0], stack, params, OntoNext(v, rest), fp)
  {
    hide Rep, Resumes, ResumesAre;
    AtChild(n, stack, params, v.(caps := now), fp, 0, rest, false);
  }

  // At a wildcard node; a dead end may leave captures behind.
  method VisitWild(n: Node, stack: Stack, params: ParamsBuf?, ci: bool, tsr: bool, path: string,
                   ghost v: Visit, ghost fp: set<object>)
    returns (move: Move, ghost u: Visit, ghost now: seq<Param>)
    requires Holding(n, stack, params, v, fp) && Ready(v) && v.via && v.path == path && v.tsr == tsr
    requires Touched(params) !! fp
    modifies Touched(params)
    ensures Holding(n, stack, params, v.(caps := now), fp) && v.caps <= now
    ensures move.Answered? ==>
              && Next(v, ci).None? && now == v.caps + [CaptureAt(v.cur, v.path)]
              && Current(v, ci) == Hit(Found(move.handler, move.pattern, [CaptureAt(v.cur, v.path)]), tsr)
    ensures move.DeadEnd? ==> DeadAt(v, ci, move.tsr) && Current(v, ci) == Miss(move.tsr, move.tsr)
    ensures move.GoTo? ==> Holding(move.next, stack, params, u, fp) && Advances(ci, v, u, move.path, move.via)
  {
    AtParts(n, stack, params, v, fp);
    u := v;
    var step;
    step, now := TakeWild(n, path, ci, tsr, params, v.caps, v.cur, fp);
    WildNext(ci, v, step);
    assert Holding(n, stack, params, v.(caps := now), fp);
    hide *;
    match step
    case WildMatch(h, p) => move := Answered(h, p);
    case WildFail(x) => move := DeadEnd(x);
    case ToNext(rest) =>
      AtNext(n, stack, params, v, now, fp, rest);
      move, u := GoTo(n.children[0], rest, false), OntoNext(v, rest);
  }

  // Visits one node.
  method VisitNode(n: Node, stack: Stack, params: ParamsBuf?, ci: bool, tsr: bool, path: string, via: bool,
                   ghost v: Visit, ghost fp: set<object>)
    returns (move: Move, after: Stack, ghost u: Visit, ghost now: seq<Param>)
    requires Holding(n, stack, params, v, fp) && Ready(v)
    requires v.via == via && v.path == path && v.tsr == tsr && Touched(params) !! fp
    modifies Touched(params)
    ensures move.Answered? ==> Next(v, ci).None? && Records(params, now) && AnswerIs(v, ci, move, now)
    ensures move.DeadEnd? ==>
              && Holding(n, after, params, v.(caps := now), fp) && v.caps <= now && after == stack
              && DeadAt(v, ci, move.tsr) && Current(v, ci) == Miss(move.tsr, move.tsr)
    ensures move.GoTo? ==> Holding(move.next, after, params, u, fp) && Advances(ci, v, u, move.path, move.via)
  {
    hide Rep, RepAll, Search, SearchWild, Resumes, ResumesAre, Walkable, Advances, Current, DeadAt, Next, ForksOk, StackOk;
    if !via {
      move, after, u := VisitText(n, stack, params, ci, tsr, path, v, fp);
      now := v.caps;
      assert v.caps + [] == v.caps;
    } else {
      after := stack;
      move, u, now := VisitWild(n, stack, params, ci, tsr, path, v, fp);
    }
  }

  // The attempt ends in a handler, with captures `now`.
  ghost predicate AnswerIs(v: Visit, ci: bool, move: Move, now: seq<Param>)
    requires Ready(v) && move.Answered?
  {
    exists more :: now == v.caps + more && Current(v, ci) == Hit(Found(move.handler, move.pattern, more), v.tsr)
  }

  lemma LastFork(v: Visit)
    requires Ready(v) && Nested(v.forks, v.caps) && v.forks != []
    ensures Last(v.forks).tree.children != [] && Last(v.forks).caps <= v.caps
  {
  }

  // Back to the last fork.
  method GoBack(n: Node, stack: Stack, params: ParamsBuf?, ci: bool, x: bool, ghost v: Visit, ghost now: seq<Param>,
                ghost fp: set<object>)
    returns (after: Stack, wild: Node, path: string)
    requires Holding(n, stack, params, v.(caps := now), fp) && v.caps <= now && Touched(params) !! fp && stack.n > 0
    requires Ready(v) && Nested(v.forks, v.caps)
    modifies Touched(params)
    ensures v.forks != [] && Last(v.forks).tree.children != [] && path == Back(v, x).path
    ensures Holding(wild, after, params, Back(v, x), fp)
  {
    AtParts(n, stack, params, v.(caps := now), fp);
    assert |v.forks| == stack.n;
    LastFork(v);
    ghost var f := Last(v.forks);
    BackIs(v, x);
    hide *;
    after, wild, path := PopFork(stack, params, now, v.forks, fp);
    AtBack(wild, after, params, v, x, fp);
  }

  lemma BackIs(v: Visit, x: bool)
    requires v.forks != [] && Last(v.forks).tree.children != []
    ensures Back(v, x).path == Last(v.forks).rest && Back(v, x).k == Last(v.forks).number
  {
  }

  lemma AtBack(n: Node, stack: Stack, params: ParamsBuf?, v: Visit, x: bool, fp: set<object>)
    requires v.forks != [] && Last(v.forks).tree.children != [] && Rep(n, Last(Last(v.forks).tree.children), fp)
    requires StackOk(stack) && ResumesAre(Resumes(stack), v.forks[..|v.forks| - 1], params, fp)
    requires Records(params, Last(v.forks).caps)
    ensures Holding(n, stack, params, Back(v, x), fp)
  {
  }

  // The walk has come as far as `v`, with these flags and this much path left.
  ghost predicate Along(t: Tree, url: string, ci: bool, run: seq<Visit>, v: Visit, path: string, via: bool, tsr: bool, saw: bool) {
    && Walkable(t) && Sound(Search(t, url, ci, false), t, ci, v) && Run(t, url, ci, run) && Last(run) == v
    && v.path == path && v.via == via && v.tsr == tsr && v.saw == saw
  }

  lemma AlongParts(t: Tree, url: string, ci: bool, run: seq<Visit>, v: Visit, path: string, via: bool, tsr: bool, saw: bool)
    requires Along(t, url, ci, run, v, path, via, tsr, saw)
    ensures Sound(Search(t, url, ci, false), t, ci, v) && v.path == path && v.via == via && v.tsr == tsr && v.saw == saw
    ensures Ready(v) && AtNode(v.cur, v.path, v.via) && Nested(v.forks, v.caps) && v.k < Size(t)
    ensures run != [] && Last(run) == v && (Next(v, ci).None? ==> WholeRun(t, url, ci, run))
  {
    hide Search, Sound, Next, Ready;
    SoundReady(Search(t, url, ci, false), t, ci, v);
    SoundParts(Search(t, url, ci, false), t, ci, v);
  }

  lemma AlongStart(t: Tree, url: string, ci: bool)
    requires Walkable(t)
    ensures Along(t, url, ci, [AtRoot(t, url)], AtRoot(t, url), url, false, false, false)
  {
    SoundStart(t, url, ci);
    hide Search, Sound;
  }

  // One visit further.
  lemma AlongOn(t: Tree, url: string, ci: bool, run: seq<Visit>, v: Visit, u: Visit)
    requires Along(t, url, ci, run, v, v.path, v.via, v.tsr, v.saw) && Ready(v) && Next(v, ci) == Some(u)
    ensures Along(t, url, ci, run + [u], u, u.path, u.via, u.tsr, u.saw) && v.k < u.k
  {
    var whole := Search(t, url, ci, false);
    hide Search, Sound, Run, Next, Ready;
    SoundOn(whole, t, ci, v);
    SoundReady(whole, t, ci, u);
    RunOn(t, url, ci, run, u);
  }

  lemma NextBack(ci: bool, v: Visit, x: bool)
    requires Ready(v) && DeadAt(v, ci, x)
    ensures if v.forks == [] then Next(v, ci).None? else Last(v.forks).tree.children != [] && Next(v, ci) == Some(Back(v, x))
  {
    hide Search, SearchWild, TextStepAt, WildStepAt;
  }

  // Back to the last fork.
  lemma AlongBack(t: Tree, url: string, ci: bool, run: seq<Visit>, v: Visit, x: bool)
    requires Along(t, url, ci, run, v, v.path, v.via, v.tsr, v.saw) && Ready(v) && DeadAt(v, ci, x) && v.forks != []
    ensures Last(v.forks).tree.children != []
    ensures var u := Back(v, x);
            v.k < u.k && u.via && u.tsr == x && u.saw == (v.saw || x) && Along(t, url, ci, run + [u], u, u.path, u.via, u.tsr, u.saw)
  {
    NextBack(ci, v, x);
    var u := Back(v, x);
    hide Along, Next, Ready, DeadAt;
    AlongOn(t, url, ci, run, v, u);
  }

  lemma AnswerReturns(t: Tree, url: string, ci: bool, run: seq<Visit>, v: Visit, path: string, via: bool, tsr: bool, saw: bool,
                      move: Move, now: seq<Param>)
    requires Along(t, url, ci, run, v, path, via, tsr, saw) && Ready(v)
    requires move.Answered? && AnswerIs(v, ci, move, now) && Next(v, ci).None?
    ensures WholeRun(t, url, ci, run) && Returns(Lookup(t, url, ci), Some(move.handler), move.pattern, tsr)
    ensures Lookup(t, url, ci).found.value.caps == now
  {
    SoundEnd(Search(t, url, ci, false), t, ci, v);
    hide Search, Sound, Run, Next, Ready;
  }

  lemma DeadEndReturns(t: Tree, url: string, ci: bool, run: seq<Visit>, v: Visit, path: string, via: bool, tsr: bool, saw: bool, x: bool)
    requires Along(t, url, ci, run, v, path, via, tsr, saw) && Ready(v)
    requires DeadAt(v, ci, x) && Current(v, ci) == Miss(x, x) && v.forks == []
    ensures WholeRun(t, url, ci, run) && Returns(Lookup(t, url, ci), None, "", saw || x)
  {
    SoundEnd(Search(t, url, ci, false), t, ci, v);
    NextBack(ci, v, x);
    hide Search, Sound, Run, Next, Ready;
  }

  lemma HoldingEnd(n: Node, stack: Stack, params: ParamsBuf?, v: Visit, now: seq<Param>, fp: set<object>)
    requires Holding(n, stack, params, v.(caps := now), fp)
    ensures |v.forks| == stack.n && (params != null ==> params.Valid())
  {
    AtParts(n, stack, params, v.(caps := now), fp);
    hide Holding, Rep;
  }

  lemma HoldingStart(root: Node, url: string, params: ParamsBuf?, t: Tree, fp: set<object>)
    requires Rep(root, t, fp) && Records(params, [])
    ensures Holding(root, Stack(0, None, None, []), params, AtRoot(t, url), fp)
  {
  }

  // A dead end with forks left.
  method RetryAt(n: Node, stack: Stack, params: ParamsBuf?, ci: bool, x: bool, saw: bool,
                 ghost url: string, ghost run: seq<Visit>, ghost v: Visit, ghost now: seq<Param>, ghost t: Tree, ghost fp: set<object>)
    returns (after: Stack, wild: Node, path: string, ghost u: Visit)
    requires Holding(n, stack, params, v.(caps := now), fp) && v.caps <= now && Touched(params) !! fp && stack.n > 0
    requires Along(t, url, ci, run, v, v.path, v.via, v.tsr, saw) && Ready(v) && DeadAt(v, ci, x) && Nested(v.forks, v.caps)
    modifies Touched(params)
    ensures Holding(wild, after, params, u, fp) && v.k < u.k
    ensures Along(t, url, ci, run + [u], u, path, true, x, saw || x)
  {
    AlongParts(t, url, ci, run, v, v.path, v.via, v.tsr, saw);
    hide *;
    after, wild, path := GoBack(n, stack, params, ci, x, v, now, fp);
    u := Back(v, x);
    AlongBack(t, url, ci, run, v, x);
  }

  // The full walk: at every static child chosen over a wildcard sibling it
  // pushes a frame, and a dead end resumes at the last one. `run` has one
  // visit for each time round the loop, so RunVisitsOnce bounds the work.
  method GetValueBacktrack(root: Node, url: string, params: ParamsBuf?, ci: bool, ghost t: Tree, ghost fp: set<object>)
    returns (handler: Option<Handler>, pattern: string, tsr: bool, ghost run: seq<Visit>)
    requires Rep(root, t, fp) && Walkable(t) && Records(params, []) && Touched(params) !! fp
    modifies Touched(params)
    ensures Returns(Lookup(t, url, ci), handler, pattern, tsr)
    ensures handler.Some? ==> Records(params, Lookup(t, url, ci).found.value.caps)
    ensures params != null ==> params.Valid()
    ensures WholeRun(t, url, ci, run)
  {
    var n, path, via, saw := root, url, false, false;
    var stack := Stack(0, None, None, []);
    tsr := false;
    ghost var v := AtRoot(t, url);
    AlongStart(t, url, ci);
    HoldingStart(root, url, params, t, fp);
    run := [v];
    hide *;
    while true
      invariant Holding(n, stack, params, v, fp) && Along(t, url, ci, run, v, path, via, tsr, saw)
      decreases Size(t) - v.k
    {
      AlongParts(t, url, ci, run, v, path, via, tsr, saw);
      var move, after, u, now := VisitNode(n, stack, params, ci, tsr, path, via, v, fp);
      match move
      case Answered(h, p) =>
        AnswerReturns(t, url, ci, run, v, path, via, tsr, saw, move, now);
        RecordsValid(params, now);
        return Some(h), p, tsr, run;
      case GoTo(next, rest, wild) =>
        AdvancesParts(ci, v, u, rest, wild);
        AlongOn(t, url, ci, run, v, u);
        n, path, via, stack, v, run := next, rest, wild, after, u, run + [u];
      case DeadEnd(x) =>
        if stack.n == 0 {
          HoldingEnd(n, stack, params, v, now, fp);
          DeadEndReturns(t, url, ci, run, v, path, via, tsr, saw, x);
          return None, "", saw || x, run;
        }
        ghost var back;
        stack, n, path, back := RetryAt(n, stack, params, ci, x, saw, url, run, v, now, t, fp);
        saw, tsr, via, v, run := saw || x, x, true, back, run + [back];
    }
  }

  // The optimistic walk goes on at `m`, which stands for `next`, below `cur`.
  ghost predicate TriesOn(whole: Outcome, forked: bool, caps: seq<Param>, ci: bool, cur: Tree, next: Tree, path: string, via: bool) {
    AtNode(next, path, via) && Size(next) < Size(cur) && Predicts(whole, forked, caps, Attempt(next, path, ci, via))
  }

  // At a node whose text has to match; `forks` says whether a fork has been
  // passed, here or before.
  method TryText(n: Node, path: string, ci: bool, forked: bool,
                 ghost whole: Outcome, ghost caps: seq<Param>, ghost cur: Tree, ghost fp: set<object>)
    returns (move: Move, forks: bool, ghost next: Tree)
    requires Rep(n, cur, fp) && Walkable(cur) && Predicts(whole, forked, caps, Search(cur, path, ci, false))
    ensures move.Answered? ==> whole == Hit(Found(move.handler, move.pattern, caps), false)
    ensures move.DeadEnd? && !forked ==> whole == Miss(move.tsr, move.tsr)
    ensures !move.GoTo? ==> forks == forked
    ensures move.GoTo? ==> Rep(move.next, next, fp) && TriesOn(whole, forks, caps, ci, cur, next, move.path, move.via)
  {
    RepKids(n, cur, fp);
    var step := TakeText(n, path, ci, false, cur, fp);
    PredictsText(whole, forked, caps, cur, path, ci, step);
    hide Rep, RepAll, Search, SearchWild, TextStepAt, Predicts, Walkable, Size;
    forks, next := forked, cur;
    match step
    case TextMatch(h, p) => move := Answered(h, p);
    case TextFail(x) => move := DeadEnd(x);
    case ToStatic(j, rest) =>
      forks := forked || n.wildChild;
      move, next := GoTo(n.children[j], rest, false), cur.children[j];
    case ToWild(rest) =>
      move, next := GoTo(n.children[n.children.Length - 1], rest, true), Last(cur.children);
  }

  method TryWild(n: Node, path: string, params: ParamsBuf?, ci: bool, ghost forked: bool,
                 ghost whole: Outcome, ghost caps: seq<Param>, ghost cur: Tree, ghost fp: set<object>)
    returns (move: Move, ghost next: Tree, ghost now: seq<Param>)
    requires Rep(n, cur, fp) && AtNode(cur, path, true) && Records(params, caps) && Touched(params) !! fp
    requires Predicts(whole, forked, caps, SearchWild(cur, path, ci, false))
    modifies Touched(params)
    ensures Records(params, now)
    ensures move.Answered? ==> whole == Hit(Found(move.handler, move.pattern, now), false)
    ensures move.DeadEnd? && !forked ==> whole == Miss(move.tsr, move.tsr)
    ensures move.GoTo? ==> Rep(move.next, next, fp) && TriesOn(whole, forked, now, ci, cur, next, move.path, move.via)
  {
    RepKids(n, cur, fp);
    var step;
    step, now := TakeWild(n, path, ci, false, params, caps, cur, fp);
    PredictsWild(whole, forked, caps, cur, path, ci, step);
    RepKids(n, cur, fp);
    hide Rep, RepAll, Search, SearchWild, WildStepAt, Predicts, Walkable, Size;
    next := cur;
    match step
    case WildMatch(h, p) => move := Answered(h, p);
    case WildFail(x) => move := DeadEnd(x);
    case ToNext(rest) => move, next := GoTo(n.children[0], rest, false), cur.children[0];
  }

  // The optimistic walk: no frames, only whether one would have been needed.
  method TryWalk(root: Node, url: string, params: ParamsBuf?, ci: bool, ghost t: Tree, ghost fp: set<object>)
    returns (found: Option<(Handler, string)>, tsr: bool, forked: bool, ghost caps: seq<Param>)
    requires Rep(root, t, fp) && Walkable(t) && Records(params, []) && Touched(params) !! fp
    modifies Touched(params)
    ensures Records(params, caps)
    ensures var whole := Search(t, url, ci, false);
            match found
            case Some(f) => whole == Hit(Found(f.0, f.1, caps), false) && !tsr
            case None => !forked ==> whole == Miss(tsr, tsr)
  {
    var n, path, via := root, url, false;
    ghost var whole, cur := Search(t, url, ci, false), t;
    forked, caps := false, [];
    PredictsStart(whole);
    hide Rep, RepAll, Search, SearchWild, Predicts, Walkable, Records, Size;
    while true
      invariant Rep(n, cur, fp) && AtNode(cur, path, via) && Records(params, caps)
      invariant Predicts(whole, forked, caps, Attempt(cur, path, ci, via))
      decreases Size(cur)
    {
      var move;
      ghost var next;
      if !via {
        move, forked, next := TryText(n, path, ci, forked, whole, caps, cur, fp);
      } else {
        move, next, caps := TryWild(n, path, params, ci, forked, whole, caps, cur, fp);
      }
      match move
      case Answered(h, p) =>
        return Some((h, p)), false, forked, caps;
      case DeadEnd(x) =>
        return None, x, forked, caps;
      case GoTo(m, rest, wild) =>
        n, path, via, cur := m, rest, wild, next;
    }
  }

  // The optimistic walk; where that leaves the outcome open the lookup starts
  // over with the full walk.
  method GetValue(root: Node, url: string, params: ParamsBuf?, ci: bool, ghost t: Tree, ghost fp: set<object>)
    returns (handler: Option<Handler>, pattern: string, tsr: bool)
    requires Rep(root, t, fp) && Walkable(t) && Records(params, []) && Touched(params) !! fp
    modifies Touched(params)
    ensures Returns(Lookup(t, url, ci), handler, pattern, tsr)
    ensures handler.Some? ==> Records(params, Lookup(t, url, ci).found.value.caps)
    ensures params != null ==> params.Valid()
  {
    hide Rep, Search, Walkable;
    var found, hint, forked, caps := TryWalk(root, url, params, ci, t, fp);
    if found.Some? {
      return Some(found.value.0), found.value.1, hint;
    }
    if !forked {
      return None, "", hint;
    }
    if params != null {
      params.Rewind(0, 0);
    }
    ghost var run;
    handler, pattern, tsr, run := GetValueBacktrack(root, url, params, ci, t, fp);
  }
}
