// The cached redirect handler: redirects read a snapshot of the middleware and
// a cached handler without a lock while Use publishes newer snapshots and
// Rebuild drops the cache. A step system, with any number of redirects.
module RedirectCache {
  import opened Wrappers

  // A middleware is known by a number.
  type Middleware = nat

  // A handler: the redirect itself, or a middleware around a handler.
  datatype Handler = Redirect | Wrapped(outer: Middleware, inner: Handler)

  // What a request passes through on its way to the redirect, first to last.
  function Layers(h: Handler): seq<Middleware> {
    match h
    case Redirect => []
    case Wrapped(m, inner) => [m] + Layers(inner)
  }

  function Chain(mw: seq<Middleware>): Handler {
    if mw == [] then Redirect else Wrapped(mw[0], Chain(mw[1..]))
  }

  // The chain of some middleware is the one handler whose requests pass through
  // them in order, the first outermost.
  lemma {:induction false} ChainMeans(mw: seq<Middleware>, h: Handler)
    ensures h == Chain(mw) <==> Layers(h) == mw
    decreases h
  {
    if h.Wrapped? && mw != [] {
      ChainMeans(mw[1..], h.inner);
      assert Layers(h)[0] == h.outer && Layers(h)[1..] == Layers(h.inner);
      assert mw == [mw[0]] + mw[1..];
    }
  }

  method WrapMiddleware(middleware: seq<Middleware>) returns (h: Handler)
    ensures h == Chain(middleware) && Layers(h) == middleware
  {
    h := Redirect;
    var i := |middleware|;
    while i > 0
      invariant 0 <= i <= |middleware| && h == Chain(middleware[i..])
    {
      i := i - 1;
      h := Wrapped(middleware[i], h);
      assert middleware[i..][1..] == middleware[i + 1..];
    }
    assert middleware[0..] == middleware;
    ChainMeans(middleware, h);
  }

  datatype Snapshot = Snapshot(gen: nat, mw: seq<Middleware>)

  datatype Entry = Entry(gen: nat, h: Handler)

  // Where a redirect is. An entry is known by its place among all entries ever
  // made, as a pointer is by its address; `None` is the nil pointer.
  datatype PC =
    | Idle
    | Look(snap: Snapshot)                                  // about to look for its generation
    | Build(snap: Snapshot)                                 // about to build a handler and an entry
    | Load(snap: Snapshot, mine: nat)                       // about to load what is cached
    | Swap(snap: Snapshot, mine: nat, cur: Option<nat>)     // about to compare and swap
    | Serve(snap: Snapshot, h: Handler)                     // has its handler
    | Plain(gen: nat)                                       // there was no middleware after that many calls of Use

  // What Use guards with its lock, the two pointers, the entries, the
  // redirects, and for the proof the middleware after each Use so far.
  datatype State = State(
    using: Option<Snapshot>, middleware: seq<Middleware>, gen: nat,
    snapshot: Option<Snapshot>, cached: Option<nat>, entries: seq<Entry>, pcs: seq<PC>, history: seq<seq<Middleware>>)

  // Use appends and numbers under its lock, then publishes. The other actions
  // are a rebuild and one step of a redirect.
  datatype Action = Append(more: seq<Middleware>) | Publish | Rebuild | Go(i: nat)

  ghost predicate Init(s: State) {
    && s.using.None? && s.middleware == [] && s.gen == 0 && s.snapshot.None? && s.cached.None? && s.entries == []
    && (forall i | 0 <= i < |s.pcs| :: s.pcs[i] == Idle) && s.history == [[]]
  }

  function At(s: State, i: nat, pc: PC): State
    requires i < |s.pcs|
  {
    s.(pcs := s.pcs[i := pc])
  }

  ghost predicate Step(s: State, a: Action, t: State) {
    match a
    case Append(more) =>
      var mw := s.middleware + more;
      s.using.None? && t == s.(using := Some(Snapshot(s.gen + 1, mw)), middleware := mw, gen := s.gen + 1, history := s.history + [mw])
    case Publish => s.using.Some? && t == s.(using := None, snapshot := s.using)
    case Rebuild => t == s.(cached := None)
    case Go(i) => i < |s.pcs| && Goes(s, i, t)
  }

  // Its own entry is one of those made.
  predicate Can(s: State, i: nat) { i < |s.pcs| && (s.pcs[i].Load? || s.pcs[i].Swap? ==> s.pcs[i].mine < |s.entries|) }

  ghost predicate Goes(s: State, i: nat, t: State)
    requires i < |s.pcs|
  {
    Can(s, i) && t == Gone(s, i)
  }

  // Where redirect `i` goes on.
  function Gone(s: State, i: nat): State
    requires Can(s, i)
  {
    match s.pcs[i]
    case Idle =>
      At(s, i, if s.snapshot.None? || s.snapshot.value.mw == [] then Plain(PublishedGen(s)) else Look(s.snapshot.value))
    case Look(snap) => At(s, i, if Hits(s, snap) then Serve(snap, s.entries[s.cached.value].h) else Build(snap))
    case Build(snap) => At(s, i, Load(snap, |s.entries|)).(entries := s.entries + [Entry(snap.gen, Chain(snap.mw))])
    case Load(snap, mine) =>
      At(s, i,
        if Hits(s, snap) then Serve(snap, s.entries[s.cached.value].h)
        else if Cached(s).Some? && Cached(s).value.gen > snap.gen then Serve(snap, s.entries[mine].h)
        else Swap(snap, mine, s.cached))
    case Swap(snap, mine, cur) =>
      if s.cached == cur then At(s, i, Serve(snap, s.entries[mine].h)).(cached := Some(mine)) else At(s, i, Load(snap, mine))
    case Serve(_, _) => At(s, i, Idle)
    case Plain(_) => At(s, i, Idle)
  }

  function PublishedGen(s: State): nat { if s.snapshot.Some? then s.snapshot.value.gen else 0 }

  function Cached(s: State): Option<Entry> {
    if s.cached.Some? && s.cached.value < |s.entries| then Some(s.entries[s.cached.value]) else None
  }

  // The cached handler is of this snapshot's generation.
  predicate Hits(s: State, snap: Snapshot) { Cached(s).Some? && Cached(s).value.gen == snap.gen }

  // ---- What every step keeps ----

  // A snapshot is the middleware after that many calls of Use.
  predicate Genuine(history: seq<seq<Middleware>>, snap: Snapshot) { 0 < snap.gen < |history| && history[snap.gen] == snap.mw }

  predicate EntryOk(history: seq<seq<Middleware>>, e: Entry) { 0 < e.gen < |history| && e.h == Chain(history[e.gen]) }

  predicate Mine(s: State, snap: Snapshot, mine: nat) { mine < |s.entries| && s.entries[mine].gen == snap.gen }

  predicate PcOk(s: State, pc: PC) {
    match pc
    case Idle => true
    case Look(snap) => Genuine(s.history, snap)
    case Build(snap) => Genuine(s.history, snap)
    case Load(snap, mine) => Genuine(s.history, snap) && Mine(s, snap, mine)
    case Swap(snap, mine, cur) =>
      Genuine(s.history, snap) && Mine(s, snap, mine) && (cur.Some? ==> cur.value < |s.entries| && s.entries[cur.value].gen < snap.gen)
    case Serve(snap, h) => Genuine(s.history, snap) && h == Chain(snap.mw)
    case Plain(gen) => gen < |s.history| && s.history[gen] == []
  }

  predicate EntriesOk(s: State) { forall e | 0 <= e < |s.entries| :: EntryOk(s.history, s.entries[e]) }

  predicate PcsOk(s: State) { forall i | 0 <= i < |s.pcs| :: PcOk(s, s.pcs[i]) }

  // The latest snapshot is published or about to be.
  predicate SnapshotsOk(s: State) {
    && |s.history| == s.gen + 1 && s.history[0] == [] && s.history[s.gen] == s.middleware
    && (s.using.Some? ==> Genuine(s.history, s.using.value) && s.using.value.gen == s.gen)
    && (s.snapshot.Some? ==> Genuine(s.history, s.snapshot.value))
    && (s.using.None? ==> if s.gen == 0 then s.snapshot.None? else s.snapshot.Some? && s.snapshot.value.gen == s.gen)
    && (s.using.Some? ==> if s.gen == 1 then s.snapshot.None? else s.snapshot.Some? && s.snapshot.value.gen == s.gen - 1)
  }

  ghost predicate Inv(s: State) {
    EntriesOk(s) && PcsOk(s) && SnapshotsOk(s) && (s.cached.Some? ==> s.cached.value < |s.entries|)
  }

  // A step only adds: entries stay, and so does the past.
  predicate Grows(s: State, t: State) {
    s.entries <= t.entries && s.history <= t.history && |s.pcs| == |t.pcs|
  }

  lemma PcGrows(s: State, t: State, pc: PC)
    requires PcOk(s, pc) && Grows(s, t)
    ensures PcOk(t, pc)
  {
  }

  lemma EntriesGrow(s: State, t: State)
    requires EntriesOk(s) && s.history <= t.history
    requires t.entries == s.entries || (|t.entries| == |s.entries| + 1 && s.entries <= t.entries && EntryOk(t.history, t.entries[|s.entries|]))
    ensures EntriesOk(t)
  {
  }

  lemma GoesKeeps(s: State, i: nat, t: State)
    requires Inv(s) && i < |s.pcs| && Goes(s, i, t)
    ensures Grows(s, t) && EntriesOk(t) && PcOk(t, t.pcs[i]) && t == s.(pcs := t.pcs, cached := t.cached, entries := t.entries)
    ensures t.cached == s.cached || (t.cached.Some? && t.cached.value < |t.entries|)
    ensures forall j | 0 <= j < |s.pcs| && j != i :: t.pcs[j] == s.pcs[j]
  {
    assert PcOk(s, s.pcs[i]);
    EntriesGrow(s, t);
  }

  lemma StepKeeps(s: State, a: Action, t: State)
    requires Inv(s) && Step(s, a, t)
    ensures Inv(t) && Grows(s, t)
  {
    if a.Go? {
      GoesKeeps(s, a.i, t);
    } else {
      EntriesGrow(s, t);
    }
    hide PcOk, EntryOk, Goes, EntriesOk;
    forall j | 0 <= j < |t.pcs| ensures PcOk(t, t.pcs[j]) {
      if !(a.Go? && j == a.i) { PcGrows(s, t, s.pcs[j]); }
    }
  }

  // ---- Runs ----

  ghost predicate Run(run: seq<State>, acts: seq<Action>) {
    |run| == |acts| + 1 && Init(run[0]) && forall k | 0 <= k < |acts| :: Step(run[k], acts[k], run[k + 1])
  }

  lemma RunKeeps(run: seq<State>, acts: seq<Action>)
    requires Run(run, acts)
    ensures forall k | 0 <= k < |run| :: Inv(run[k])
  {
    hide Inv, Step;
    assert Inv(run[0]) by { InitOk(run[0]); }
    for k := 0 to |acts|
      invariant forall j | 0 <= j <= k :: Inv(run[j])
    {
      StepKeeps(run[k], acts[k], run[k + 1]);
    }
  }

  lemma StepAt(run: seq<State>, acts: seq<Action>, k: nat)
    requires Run(run, acts) && k < |acts|
    ensures k + 1 < |run| && Inv(run[k]) && Step(run[k], acts[k], run[k + 1])
  {
    RunKeeps(run, acts);
    hide Inv, Step;
  }

  lemma InitOk(s: State)
    requires Init(s)
    ensures Inv(s)
  {
  }

  // In every interleaving a redirect runs exactly the middleware of the
  // snapshot it read, which is the middleware after some call of Use, and what
  // is cached is the chain of its own generation.
  lemma RunsItsSnapshot(run: seq<State>, acts: seq<Action>, k: nat)
    requires Run(run, acts) && k < |run|
    ensures var s := run[k];
            && (forall i | 0 <= i < |s.pcs| && s.pcs[i].Serve? ::
                  Layers(s.pcs[i].h) == s.pcs[i].snap.mw && Genuine(s.history, s.pcs[i].snap))
            && (forall i | 0 <= i < |s.pcs| && s.pcs[i].Plain? ::
                  s.pcs[i].gen < |s.history| && s.history[s.pcs[i].gen] == [])
            && (Cached(s).Some? ==>
                  var Entry(gen, h) := Cached(s).value; gen < |s.history| && Layers(h) == s.history[gen])
  {
    RunKeeps(run, acts);
    assert Inv(run[k]);
    var s := run[k];
    forall i | 0 <= i < |s.pcs| && s.pcs[i].Serve? ensures Layers(s.pcs[i].h) == s.pcs[i].snap.mw {
      assert PcOk(s, s.pcs[i]);
      ChainMeans(s.pcs[i].snap.mw, s.pcs[i].h);
    }
    if Cached(s).Some? {
      assert EntryOk(s.history, s.entries[s.cached.value]);
      ChainMeans(s.history[Cached(s).value.gen], Cached(s).value.h);
    }
    assert forall i | 0 <= i < |s.pcs| :: PcOk(s, s.pcs[i]);
  }

  function CachedGen(s: State): nat { if Cached(s).Some? then Cached(s).value.gen else 0 }

  lemma StepGen(s: State, a: Action, t: State)
    requires Inv(s) && Step(s, a, t) && a != Rebuild
    ensures CachedGen(s) <= CachedGen(t) && (s.cached.Some? ==> t.cached.Some?)
    ensures t.cached != s.cached ==> CachedGen(s) < CachedGen(t)
  {
    if a.Go? {
      assert PcOk(s, s.pcs[a.i]);
    }
  }

  predicate NoRebuild(acts: seq<Action>, j: nat, k: nat)
    requires j <= k <= |acts|
  {
    forall l | j <= l < k :: acts[l] != Rebuild
  }

  // Without a rebuild the cached generation never falls.
  lemma {:induction false} CachedGenGrows(run: seq<State>, acts: seq<Action>, j: nat, k: nat)
    requires Run(run, acts) && j <= k <= |acts| && NoRebuild(acts, j, k)
    ensures CachedGen(run[j]) <= CachedGen(run[k])
    decreases k
  {
    if j < k {
      CachedGenGrows(run, acts, j, k - 1);
      StepAt(run, acts, k - 1);
      hide Inv, Step, Run, CachedGen;
      StepGen(run[k - 1], acts[k - 1], run[k]);
    }
  }

  // ---- What a redirect leaves in the cache ----

  // Once a redirect has its handler, its generation or a newer one is cached.
  predicate Left(s: State, pc: PC) { pc.Serve? ==> pc.snap.gen <= CachedGen(s) }

  lemma StepLeaves(s: State, a: Action, t: State, i: nat)
    requires Inv(s) && Step(s, a, t) && a != Rebuild && i < |s.pcs| && Left(s, s.pcs[i])
    ensures i < |t.pcs| && Left(t, t.pcs[i])
  {
    StepGen(s, a, t);
    if a.Go? {
      GoesKeeps(s, a.i, t);
      if a.i == i {
        assert PcOk(s, s.pcs[i]);
      }
    }
  }

  // A redirect begun and answered with no rebuild in between leaves its own
  // generation cached, or a newer one.
  lemma {:induction false} LeavesCached(run: seq<State>, acts: seq<Action>, i: nat, j: nat, k: nat)
    requires Run(run, acts) && j <= k <= |acts| && NoRebuild(acts, j, k)
    requires i < |run[j].pcs| && run[j].pcs[i] == Idle
    ensures i < |run[k].pcs| && Left(run[k], run[k].pcs[i])
    decreases k
  {
    if j < k {
      LeavesCached(run, acts, i, j, k - 1);
      StepAt(run, acts, k - 1);
      hide Inv, Step, Run, Left;
      StepLeaves(run[k - 1], acts[k - 1], run[k], i);
    }
  }

  // ---- When a redirect uses the cache ----

  // What is cached is of the newest generation, and redirect `i` has not begun
  // to build a handler of its own.
  predicate Warm(s: State, i: nat) {
    && s.using.None? && CachedGen(s) == s.gen > 0 && i < |s.pcs|
    && match s.pcs[i]
       case Look(snap) => snap.gen == s.gen
       case Build(_) => false
       case Load(_, _) => false
       case Swap(_, _, _) => false
       case _ => true
  }

  lemma StepWarm(s: State, a: Action, t: State, i: nat)
    requires Inv(s) && Inv(t) && Step(s, a, t) && Warm(s, i) && a != Rebuild && !a.Append?
    ensures Warm(t, i)
  {
    StepGen(s, a, t);
    assert EntryOk(t.history, t.entries[t.cached.value]);
    if a.Go? {
      GoesKeeps(s, a.i, t);
    }
  }

  // A redirect that starts while the newest generation is cached builds
  // nothing, up to the next call of Use or Rebuild.
  lemma {:induction false} CacheUsed(run: seq<State>, acts: seq<Action>, i: nat, j: nat, k: nat)
    requires Run(run, acts) && j <= k <= |acts| && NoRebuild(acts, j, k) && forall l | j <= l < k :: !acts[l].Append?
    requires run[j].using.None? && CachedGen(run[j]) == run[j].gen > 0 && i < |run[j].pcs| && run[j].pcs[i] == Idle
    ensures Warm(run[k], i)
    decreases k
  {
    hide Inv, Step, Run, CachedGen;
    if j < k {
      CacheUsed(run, acts, i, j, k - 1);
      StepAt(run, acts, k - 1);
      NextKeeps(run, acts, k - 1);
      StepWarm(run[k - 1], acts[k - 1], run[k], i);
    }
  }

  lemma NextKeeps(run: seq<State>, acts: seq<Action>, k: nat)
    requires Run(run, acts) && k < |acts|
    ensures k + 1 < |run| && Inv(run[k + 1])
  {
    RunKeeps(run, acts);
    hide Inv, Step;
  }

  // A redirect always has a step to take.
  lemma NeverStuck(run: seq<State>, acts: seq<Action>, k: nat, i: nat)
    requires Run(run, acts) && k < |run| && i < |run[k].pcs|
    ensures Can(run[k], i) && Step(run[k], Go(i), Gone(run[k], i)) && Gone(run[k], i).pcs[i] != run[k].pcs[i]
  {
    RunKeeps(run, acts);
    hide Step, EntryOk;
    assert Inv(run[k]) && PcOk(run[k], run[k].pcs[i]);
    CanGo(run[k], i);
  }

  lemma CanGo(s: State, i: nat)
    requires i < |s.pcs| && PcOk(s, s.pcs[i])
    ensures Can(s, i) && Step(s, Go(i), Gone(s, i)) && Gone(s, i).pcs[i] != s.pcs[i]
  {
  }

  // One that is not disturbed has its handler after two steps if its
  // generation is cached, and after five, its generation cached, if there is
  // none or an older one.
  lemma UndisturbedServes(run: seq<State>, acts: seq<Action>, k: nat, i: nat)
    requires Run(run, acts) && k + 5 <= |acts| && forall l | k <= l < k + 5 :: acts[l] == Go(i)
    requires i < |run[k].pcs| && run[k].pcs[i] == Idle && run[k].snapshot.Some? && run[k].snapshot.value.mw != []
    ensures var snap := run[k].snapshot.value;
            && (Hits(run[k], snap) ==> i < |run[k + 2].pcs| && run[k + 2].pcs[i].Serve? && run[k + 2].entries == run[k].entries)
            && (Cached(run[k]).None? || CachedGen(run[k]) < snap.gen ==>
                  i < |run[k + 5].pcs| && run[k + 5].pcs[i].Serve? && CachedGen(run[k + 5]) == snap.gen)
  {
    hide *;
    GoesAt(run, acts, k, i);
    CachedMade(run, acts, k);
    GoesAt(run, acts, k + 1, i);
    GoesAt(run, acts, k + 2, i);
    GoesAt(run, acts, k + 3, i);
    GoesAt(run, acts, k + 4, i);
    FiveSteps(run[k], run[k + 1], run[k + 2], run[k + 3], run[k + 4], run[k + 5], i);
  }

  lemma GoesAt(run: seq<State>, acts: seq<Action>, k: nat, i: nat)
    requires Run(run, acts) && k < |acts| && acts[k] == Go(i)
    ensures k + 1 < |run| && i < |run[k].pcs| == |run[k + 1].pcs| && Goes(run[k], i, run[k + 1])
  {
    assert Step(run[k], acts[k], run[k + 1]);
  }

  lemma CachedMade(run: seq<State>, acts: seq<Action>, k: nat)
    requires Run(run, acts) && k < |run|
    ensures run[k].cached.Some? ==> run[k].cached.value < |run[k].entries|
  {
    RunKeeps(run, acts);
    assert Inv(run[k]);
  }

  lemma FiveSteps(s: State, t: State, u: State, v: State, w: State, x: State, i: nat)
    requires i < |s.pcs| == |t.pcs| == |u.pcs| == |v.pcs| == |w.pcs|
    requires Goes(s, i, t) && Goes(t, i, u) && Goes(u, i, v) && Goes(v, i, w) && Goes(w, i, x)
    requires s.pcs[i] == Idle && s.snapshot.Some? && s.snapshot.value.mw != []
    requires s.cached.Some? ==> s.cached.value < |s.entries|
    ensures var snap := s.snapshot.value;
            && (Hits(s, snap) ==> u.pcs[i].Serve? && u.entries == s.entries)
            && (Cached(s).None? || CachedGen(s) < snap.gen ==> i < |x.pcs| && x.pcs[i].Serve? && CachedGen(x) == snap.gen)
  {
  }

  // ---- How fresh a redirect is ----

  // The middleware a redirect starts with is no older than any Use that had
  // returned, and it is not dropped later.
  predicate Fresh(gen: nat, s: State, pc: PC) {
    match pc
    case Idle => gen <= PublishedGen(s)
    case Plain(g) => gen <= g
    case _ => gen <= pc.snap.gen
  }

  lemma StepFresh(s: State, a: Action, t: State, i: nat, gen: nat)
    requires Inv(s) && Step(s, a, t) && i < |s.pcs| && Fresh(gen, s, s.pcs[i]) && gen <= PublishedGen(s)
    ensures i < |t.pcs| && Fresh(gen, t, t.pcs[i]) && PublishedGen(s) <= PublishedGen(t)
  {
    if a.Go? {
      GoesKeeps(s, a.i, t);
    }
  }

  // The snapshot published is at least that fresh, and so is redirect `i`.
  predicate Seen(gen: nat, s: State, i: nat) { i < |s.pcs| && gen <= PublishedGen(s) && Fresh(gen, s, s.pcs[i]) }

  lemma StepSeen(s: State, a: Action, t: State, i: nat, gen: nat)
    requires Inv(s) && Step(s, a, t) && Seen(gen, s, i)
    ensures Seen(gen, t, i)
  {
    StepFresh(s, a, t, i, gen);
    hide Inv, Step, Fresh, PublishedGen;
  }

  lemma {:induction false} SeenLater(run: seq<State>, acts: seq<Action>, gen: nat, i: nat, j: nat, k: nat)
    requires Run(run, acts) && j <= k < |run| && Seen(gen, run[j], i)
    ensures Seen(gen, run[k], i)
    decreases k
  {
    hide Inv, Step, Seen;
    if j < k {
      SeenLater(run, acts, gen, i, j, k - 1);
      StepAt(run, acts, k - 1);
      StepSeen(run[k - 1], acts[k - 1], run[k], i, gen);
    }
  }

  // A redirect that starts after some call of Use has returned runs the
  // middleware of that call or a later one.
  lemma SeesEarlierUse(run: seq<State>, acts: seq<Action>, i: nat, j: nat, k: nat)
    requires Run(run, acts) && j <= k < |run| && i < |run[j].pcs| && run[j].pcs[i] == Idle
    ensures PublishedGen(run[j]) <= PublishedGen(run[k])
    ensures i < |run[k].pcs| && Fresh(PublishedGen(run[j]), run[k], run[k].pcs[i])
  {
    assert Seen(PublishedGen(run[j]), run[j], i);
    hide Run, PublishedGen, Fresh;
    SeenLater(run, acts, PublishedGen(run[j]), i, j, k);
  }
}
