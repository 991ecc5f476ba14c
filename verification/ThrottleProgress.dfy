// What a request can count on at the per-key table: it is refused only when it
// should be, it never gets stuck behind a lock, and nothing is left behind.
module ThrottleProgress {
  import opened Counting
  import opened ThrottleTable

  lemma OneMoves(c: Config, s: State, i: nat, t: State)
    requires i < |s.pcs| && Step(c, s, i, t)
    ensures |t.pcs| == |s.pcs| && forall j | 0 <= j < |s.pcs| && j != i :: t.pcs[j] == s.pcs[j]
  {
  }

  // Request `i` is the one that moves in step `k`, if it moves.
  lemma Mover(c: Config, run: seq<State>, k: nat, i: nat)
    requires Run(c, run) && k + 1 < |run| && i < |run[k].pcs|
    ensures Inv(c, run[k]) && |run[k + 1].pcs| == |run[k].pcs|
    ensures run[k + 1].pcs[i] != run[k].pcs[i] ==> Step(c, run[k], i, run[k + 1])
  {
    RunInv(c, run, k);
    hide Inv, Step;
    if !PoolDrops(run[k], run[k + 1]) {
      var j :| 0 <= j < |run[k].pcs| && Step(c, run[k], j, run[k + 1]);
      OneMoves(c, run[k], j, run[k + 1]);
    }
  }

  // ---- When a request is refused ----

  // Keys in the table, and keys that requests have counted in advance or not
  // counted off yet.
  function Occupied(s: State): nat { |s.m.Keys| + Count(s.pcs, Counted) }

  // In step `l` the timer of request `i` goes off while it waits for a token.
  predicate TimesOut(run: seq<State>, i: nat, l: nat)
    requires l + 1 < |run| && i < |run[l].pcs| == |run[l + 1].pcs|
  {
    run[l].pcs[i].Waiting? && run[l + 1].pcs[i].Dropping?
  }

  // In step `l` it finds its key missing and the table full.
  predicate TurnedAway(c: Config, run: seq<State>, i: nat, l: nat)
    requires l + 1 < |run| && i < |run[l].pcs| == |run[l + 1].pcs|
  {
    && run[l].pcs[i].Reserve? && run[l + 1].pcs[i].Rollback?
    && run[l].pcs[i].key !in run[l].m && Occupied(run[l]) >= c.maxSize > 0
  }

  lemma ReserveMeans(c: Config, s: State, i: nat, t: State)
    requires Inv(c, s) && c.maxSize > 0 && i < |s.pcs| && s.pcs[i].Reserve? && Step(c, s, i, t)
    ensures s.pcs[i].key !in s.m
    ensures t.pcs[i] == if Occupied(s) < c.maxSize then Fetch(s.pcs[i].key) else Rollback(s.pcs[i].key)
  {
  }

  // A request that asks its key's entry for a token waits if all of them are
  // held, and runs if not.
  lemma WaitsOnlyThen(c: Config, run: seq<State>, k: nat, i: nat)
    requires Run(c, run) && k + 1 < |run| && i < |run[k].pcs| == |run[k + 1].pcs|
    requires run[k].pcs[i].Taking? && run[k + 1].pcs[i] != run[k].pcs[i]
    ensures var Taking(key, e) := run[k].pcs[i];
            && key in run[k].m && run[k].m[key] == e
            && run[k + 1].pcs[i] == if HoldersOf(run[k].pcs, e) == c.limit then Waiting(key, e) else Running(key, e)
  {
    Mover(c, run, k, i);
    RefersTo(run[k], i);
    TakingMeans(c, run[k], i, run[k + 1]);
  }

  lemma TakingMeans(c: Config, s: State, i: nat, t: State)
    requires TokensKept(c, s) && i < |s.pcs| && s.pcs[i].Taking? && Step(c, s, i, t) && s.pcs[i].e < |s.tokens|
    ensures var Taking(key, e) := s.pcs[i];
            i < |t.pcs| && t.pcs[i] == if HoldersOf(s.pcs, e) == c.limit then Waiting(key, e) else Running(key, e)
  {
  }

  // One that waits may take a token as soon as one is back.
  lemma WaiterServed(c: Config, run: seq<State>, k: nat, i: nat) returns (t: State)
    requires Run(c, run) && k < |run| && i < |run[k].pcs| && run[k].pcs[i].Waiting?
    requires HoldersOf(run[k].pcs, run[k].pcs[i].e) < c.limit
    ensures Step(c, run[k], i, t) && t.pcs == run[k].pcs[i := Running(run[k].pcs[i].key, run[k].pcs[i].e)]
  {
    RunInv(c, run, k);
    RefersTo(run[k], i);
    t := Taken(run[k], i, run[k].pcs[i].key, run[k].pcs[i].e);
  }

  // Reserving is done with a positive maximum only.
  predicate Bounded(c: Config, s: State) { forall i | 0 <= i < |s.pcs| && s.pcs[i].Reserve? :: c.maxSize > 0 }

  lemma {:induction false} RunBounded(c: Config, run: seq<State>, k: nat)
    requires Run(c, run) && k < |run|
    ensures Bounded(c, run[k])
  {
    if k == 0 {
      assert Init(c, run[0]);
    } else {
      RunBounded(c, run, k - 1);
      hide Run;
      forall i | 0 <= i < |run[k].pcs| && run[k].pcs[i].Reserve? ensures c.maxSize > 0 {
        BoundedStep(c, run, k - 1, i);
      }
    }
  }

  lemma BoundedStep(c: Config, run: seq<State>, k: nat, i: nat)
    requires Run(c, run) && k + 1 < |run| && Bounded(c, run[k]) && i < |run[k + 1].pcs| && run[k + 1].pcs[i].Reserve?
    ensures c.maxSize > 0
  {
    RequestsSame(c, run, k);
    Mover(c, run, k, i);
    hide Inv, Run, Step;
    if run[k + 1].pcs[i] != run[k].pcs[i] { ComesToReserve(c, run[k], i, run[k + 1]); }
  }

  lemma ComesToReserve(c: Config, s: State, i: nat, t: State)
    requires i < |s.pcs| && Step(c, s, i, t) && i < |t.pcs| && t.pcs[i].Reserve?
    ensures c.maxSize > 0
  {
  }

  lemma RequestsSame(c: Config, run: seq<State>, k: nat)
    requires Run(c, run) && k + 1 < |run|
    ensures |run[k + 1].pcs| == |run[k].pcs|
  {
    if |run[k].pcs| > 0 {
      Mover(c, run, k, 0);
    } else {
      hide Step;
      assert Next(c, run[k], run[k + 1]);
    }
  }

  predicate SameRequests(run: seq<State>, i: nat) { forall l | 0 <= l < |run| :: i < |run[l].pcs| == |run[0].pcs| }

  lemma {:induction false} RequestsStay(c: Config, run: seq<State>, k: nat)
    requires Run(c, run) && k < |run|
    ensures |run[k].pcs| == |run[0].pcs|
  {
    if k > 0 {
      RequestsStay(c, run, k - 1);
      RequestsSame(c, run, k - 1);
    }
  }

  // From its arrival on the request has neither been let in nor answered.
  predicate Undecided(run: seq<State>, i: nat, j: nat, k: nat)
    requires SameRequests(run, i) && j <= k <= |run|
  {
    forall l | j <= l < k :: !run[l].pcs[i].Idle? && !run[l].pcs[i].Running?
  }

  predicate WasRefused(c: Config, run: seq<State>, i: nat, j: nat, k: nat)
    requires SameRequests(run, i) && j <= k < |run|
  {
    exists l | j <= l < k :: TimesOut(run, i, l) || TurnedAway(c, run, i, l)
  }

  // On its way out.
  predicate Leaves(pc: PC) {
    pc.Idle? || pc.Rollback? || pc.Full? || pc.Dropping? || pc.Dec? || pc.Unlock? || pc.Shrink? || pc.Put?
  }

  // Without having run its handler a request comes to leave in two ways only.
  lemma LeavesWhen(c: Config, s: State, i: nat, t: State)
    requires i < |s.pcs| && Step(c, s, i, t) && !s.pcs[i].Running? && !s.pcs[i].Returning? && !Leaves(s.pcs[i])
    ensures i < |t.pcs| && !t.pcs[i].Returning?
    ensures Leaves(t.pcs[i]) ==> (s.pcs[i].Reserve? && t.pcs[i].Rollback?) || (s.pcs[i].Waiting? && t.pcs[i].Dropping?)
  {
  }

  lemma LeavesStill(c: Config, s: State, i: nat, t: State)
    requires i < |s.pcs| && Step(c, s, i, t) && Leaves(s.pcs[i])
    ensures i < |t.pcs| && !t.pcs[i].Returning?
  {
  }

  // What such a request has been through.
  predicate History(c: Config, run: seq<State>, i: nat, j: nat, k: nat)
    requires SameRequests(run, i) && j <= k < |run|
  {
    !run[k].pcs[i].Returning? && (Leaves(run[k].pcs[i]) ==> WasRefused(c, run, i, j, k))
  }

  lemma HistoryStep(c: Config, run: seq<State>, i: nat, j: nat, k: nat)
    requires Run(c, run) && SameRequests(run, i) && j <= k && k + 1 < |run|
    requires History(c, run, i, j, k) && !run[k].pcs[i].Idle? && !run[k].pcs[i].Running?
    ensures History(c, run, i, j, k + 1)
  {
    Mover(c, run, k, i);
    RunBounded(c, run, k);
    var pc, next := run[k].pcs[i], run[k + 1].pcs[i];
    assert pc.Reserve? ==> c.maxSize > 0;
    hide Inv, Run, Step, Occupied;
    if pc != next {
      if Leaves(pc) { LeavesStill(c, run[k], i, run[k + 1]); } else { LeavesWhen(c, run[k], i, run[k + 1]); }
      if pc.Reserve? { ReserveMeans(c, run[k], i, run[k + 1]); }
      assert pc.Reserve? && next.Rollback? ==> TurnedAway(c, run, i, k);
      assert pc.Waiting? && next.Dropping? ==> TimesOut(run, i, k);
    }
  }

  lemma {:induction false} Histories(c: Config, run: seq<State>, i: nat, j: nat, k: nat)
    requires Run(c, run) && SameRequests(run, i) && j <= k < |run| && run[j].pcs[i].Lock? && Undecided(run, i, j, k)
    ensures History(c, run, i, j, k)
    decreases k
  {
    hide Run, WasRefused, Inv, Step;
    if j < k {
      Histories(c, run, i, j, k - 1);
      HistoryStep(c, run, i, j, k - 1);
    }
  }

  // A request that gets its answer without having run its handler waited for a
  // token until its timer went off, or found its key missing and the table
  // full.
  lemma RefusedOnlyThen(c: Config, run: seq<State>, i: nat, j: nat, k: nat)
    requires Run(c, run) && j < k < |run| && i < |run[0].pcs|
    ensures SameRequests(run, i)
    ensures run[j].pcs[i].Lock? && Undecided(run, i, j, k) && run[k].pcs[i].Idle? ==> WasRefused(c, run, i, j, k)
  {
    forall l | 0 <= l < |run| ensures i < |run[l].pcs| == |run[0].pcs| { RequestsStay(c, run, l); }
    if run[j].pcs[i].Lock? && Undecided(run, i, j, k) && run[k].pcs[i].Idle? {
      Histories(c, run, i, j, k);
    }
  }

  // ---- Locks ----

  // Somebody is behind every lock.
  predicate Manned(c: Config, s: State) {
    forall h | h in s.locked :: exists i :: 0 <= i < |s.pcs| && InShard(s.pcs[i]) && c.shard(s.pcs[i].key) == h
  }

  lemma MannedStep(c: Config, s: State, i: nat, t: State)
    requires Manned(c, s) && Exclusive(c, s) && i < |s.pcs| && Step(c, s, i, t)
    ensures Manned(c, t)
  {
    OneMoves(c, s, i, t);
    LockOf(c, s, i, t);
    hide Step, Exclusive;
    forall h | h in t.locked ensures exists j :: 0 <= j < |t.pcs| && InShard(t.pcs[j]) && c.shard(t.pcs[j].key) == h {
      if InShard(t.pcs[i]) && c.shard(t.pcs[i].key) == h {
      } else {
        var j :| 0 <= j < |s.pcs| && InShard(s.pcs[j]) && c.shard(s.pcs[j].key) == h;
        assert j != i && InShard(t.pcs[j]);
      }
    }
  }

  // What a step does to the locks.
  lemma LockOf(c: Config, s: State, i: nat, t: State)
    requires i < |s.pcs| && Step(c, s, i, t) && (InShard(s.pcs[i]) ==> c.shard(s.pcs[i].key) in s.locked)
    ensures i < |t.pcs| && forall h | h in t.locked :: h in s.locked || (InShard(t.pcs[i]) && c.shard(t.pcs[i].key) == h)
    ensures InShard(s.pcs[i]) ==>
              || (InShard(t.pcs[i]) && t.pcs[i].key == s.pcs[i].key)
              || c.shard(s.pcs[i].key) !in t.locked
  {
  }

  lemma {:induction false} RunManned(c: Config, run: seq<State>, k: nat)
    requires Run(c, run) && k < |run|
    ensures Manned(c, run[k]) && Inv(c, run[k])
  {
    RunInv(c, run, k);
    if k > 0 {
      RunManned(c, run, k - 1);
      hide Homes, Views, TokensKept, RefsKept, SizeKept, Exclusive, Manned, Step;
      if PoolDrops(run[k - 1], run[k]) {
        MannedSame(c, run[k - 1], run[k]);
      } else {
        var i :| 0 <= i < |run[k - 1].pcs| && Step(c, run[k - 1], i, run[k]);
        MannedStep(c, run[k - 1], i, run[k]);
      }
    }
  }

  lemma MannedSame(c: Config, s: State, t: State)
    requires Manned(c, s) && PoolDrops(s, t)
    ensures Manned(c, t)
  {
  }

  // Request `j` holds the lock request `i` is about to take.
  predicate Blocks(c: Config, s: State, i: nat, j: nat)
    requires i < |s.pcs| && j < |s.pcs|
  {
    && (s.pcs[i].Lock? || s.pcs[i].Dropping?)
    && InShard(s.pcs[j]) && c.shard(s.pcs[j].key) == c.shard(s.pcs[i].key)
  }

  // No request is ever stuck: it has a step to take, or the one that holds the
  // lock it wants has, and is not about to take a lock itself.
  lemma NeverStuck(c: Config, run: seq<State>, k: nat, i: nat) returns (j: nat, t: State)
    requires Run(c, run) && k < |run| && i < |run[k].pcs|
    ensures j < |run[k].pcs| && Step(c, run[k], j, t) && (j == i || Blocks(c, run[k], i, j))
  {
    RunManned(c, run, k);
    var s := run[k];
    hide Inv, Run, Step;
    j := i;
    if (s.pcs[i].Lock? || s.pcs[i].Dropping?) && c.shard(s.pcs[i].key) in s.locked {
      j := Holder(c, s, c.shard(s.pcs[i].key));
    }
    Steps(c, s, j);
    if s.pcs[j].Idle? {
      t := Move(s, j, Lock(""));
    } else {
      t := Goes(c, s, j);
    }
  }

  lemma Holder(c: Config, s: State, h: nat) returns (j: nat)
    requires Manned(c, s) && h in s.locked
    ensures j < |s.pcs| && InShard(s.pcs[j]) && c.shard(s.pcs[j].key) == h
  {
    j :| 0 <= j < |s.pcs| && InShard(s.pcs[j]) && c.shard(s.pcs[j].key) == h;
  }

  lemma Steps(c: Config, s: State, i: nat)
    requires Inv(c, s) && i < |s.pcs|
    requires s.pcs[i].Lock? || s.pcs[i].Dropping? ==> c.shard(s.pcs[i].key) !in s.locked
    ensures if s.pcs[i].Idle? then Step(c, s, i, Move(s, i, Lock(""))) else Can(c, s, i) && Step(c, s, i, Goes(c, s, i))
  {
    hide Inv, Can, Goes;
    if !s.pcs[i].Idle? { Proceeds(c, s, i); }
  }

  lemma Proceeds(c: Config, s: State, i: nat)
    requires Inv(c, s) && i < |s.pcs| && !s.pcs[i].Idle?
    requires s.pcs[i].Lock? || s.pcs[i].Dropping? ==> c.shard(s.pcs[i].key) !in s.locked
    ensures Can(c, s, i)
  {
    if Refers(s.pcs[i]) { RefersTo(s, i); }
    if s.pcs[i].Returning? {
      var e := s.pcs[i].e;
      CountSome(s.pcs, i, (pc: PC) => HasToken(pc) && pc.e == e);
      assert s.tokens[e] + HoldersOf(s.pcs, e) == c.limit;
    }
  }

  // ---- A request nobody gets in the way of ----

  // Steps `k` to `k + n` are all those of request `i`.
  ghost predicate Undisturbed(c: Config, run: seq<State>, i: nat, k: nat, n: nat)
    requires k + n < |run|
  {
    forall l | k <= l < k + n :: i < |run[l].pcs| && Step(c, run[l], i, run[l + 1])
  }

  // Its shard's lock is free and so is a token for it, or there is room for
  // its key.
  predicate Welcome(c: Config, s: State, key: Key) {
    && c.shard(key) !in s.locked && c.limit > 0
    && if key in s.m then HoldersOf(s.pcs, s.m[key]) < c.limit else c.maxSize > 0 ==> Occupied(s) < c.maxSize
  }

  function StepsIn(c: Config, s: State, key: Key): nat {
    if key in s.m then 4 else if c.maxSize > 0 then 7 else 6
  }

  // From the lock to the token: the key is known, so it uses the entry the key
  // has ...
  lemma KnownKey(c: Config, run: seq<State>, i: nat, k: nat, key: Key)
    requires k + 3 < |run| && Undisturbed(c, run, i, k, 3) && i < |run[k].pcs| && run[k].pcs[i] == Lock(key)
    requires key in run[k].m
    ensures i < |run[k + 3].pcs| && run[k + 3].pcs[i] == Taking(key, run[k].m[key])
    ensures run[k + 3].tokens == run[k].tokens && run[k + 3].m == run[k].m
  {
    hide Available, HasRoom;
    assert Step(c, run[k], i, run[k + 1]) && Step(c, run[k + 1], i, run[k + 2]) && Step(c, run[k + 2], i, run[k + 3]);
  }

  // ... or it is not, and it gets as far as the pool ...
  lemma NewKey(c: Config, run: seq<State>, i: nat, k: nat, key: Key, n: nat)
    requires n == (if c.maxSize > 0 then 3 else 2) && k + n < |run|
    requires Undisturbed(c, run, i, k, n) && i < |run[k].pcs| && run[k].pcs[i] == Lock(key)
    requires key !in run[k].m && (c.maxSize > 0 ==> run[k].size < c.maxSize)
    ensures i < |run[k + n].pcs| && run[k + n].pcs[i] == Fetch(key)
  {
    assert Step(c, run[k], i, run[k + 1]) && Step(c, run[k + 1], i, run[k + 2]);
    if c.maxSize > 0 { assert Step(c, run[k + 2], i, run[k + 3]); }
  }

  // ... and from there to an entry that is full.
  lemma FullEntry(c: Config, run: seq<State>, i: nat, k: nat, key: Key)
    requires Run(c, run) && k + 3 < |run| && Undisturbed(c, run, i, k, 3) && i < |run[k].pcs| && run[k].pcs[i] == Fetch(key)
    ensures i < |run[k + 3].pcs| && run[k + 3].pcs[i].Taking? && run[k + 3].pcs[i].key == key
    ensures var e := run[k + 3].pcs[i].e; e < |run[k + 3].tokens| && run[k + 3].tokens[e] == c.limit
  {
    TableHolds(c, run, k);
    FetchedFull(c, run[k], i, run[k + 1]);
    hide Run;
    assert Step(c, run[k + 1], i, run[k + 2]) && Step(c, run[k + 2], i, run[k + 3]);
  }

  lemma FetchedFull(c: Config, s: State, i: nat, t: State)
    requires i < |s.pcs| && s.pcs[i].Fetch? && Step(c, s, i, t)
    requires forall e | e in s.pool :: e < |s.tokens| && s.tokens[e] == c.limit
    ensures i < |t.pcs| && t.pcs[i].Insert? && t.pcs[i].key == s.pcs[i].key
    ensures t.pcs[i].e < |t.tokens| && t.tokens[t.pcs[i].e] == c.limit
  {
  }

  lemma TokenTaken(c: Config, run: seq<State>, i: nat, k: nat)
    requires k + 1 < |run| && Undisturbed(c, run, i, k, 1) && i < |run[k].pcs| && run[k].pcs[i].Taking?
    requires Available(run[k], run[k].pcs[i].e)
    ensures i < |run[k + 1].pcs| && run[k + 1].pcs[i] == Running(run[k].pcs[i].key, run[k].pcs[i].e)
  {
    assert Step(c, run[k], i, run[k + 1]);
  }

  // A request whose key has a token left, or is new with room in the table,
  // runs its handler when nobody gets in its way.
  lemma WelcomeRuns(c: Config, run: seq<State>, i: nat, k: nat, key: Key)
    requires Run(c, run) && k < |run| && i < |run[k].pcs| && run[k].pcs[i] == Lock(key) && Welcome(c, run[k], key)
    requires var n := StepsIn(c, run[k], key); k + n < |run| && Undisturbed(c, run, i, k, n)
    ensures var t := run[k + StepsIn(c, run[k], key)];
            i < |t.pcs| && t.pcs[i].Running? && t.pcs[i].key == key && (key in run[k].m ==> t.pcs[i].e == run[k].m[key])
  {
    RunInv(c, run, k);
    WelcomeMeans(c, run[k], key);
    hide *;
    if key in run[k].m {
      KnownKeyRuns(c, run, i, k, key);
    } else {
      NewKeyRuns(c, run, i, k, key, if c.maxSize > 0 then 3 else 2);
    }
  }

  lemma KnownKeyRuns(c: Config, run: seq<State>, i: nat, k: nat, key: Key)
    requires k + 4 < |run| && i < |run[k].pcs| && run[k].pcs[i] == Lock(key) && Undisturbed(c, run, i, k, 4)
    requires key in run[k].m && Available(run[k], run[k].m[key])
    ensures i < |run[k + 4].pcs| && run[k + 4].pcs[i] == Running(key, run[k].m[key])
  {
    hide Undisturbed;
    Part(c, run, i, k, 4, 0, 3);
    Part(c, run, i, k, 4, 3, 1);
    KnownKey(c, run, i, k, key);
    TokenTaken(c, run, i, k + 3);
  }

  lemma NewKeyRuns(c: Config, run: seq<State>, i: nat, k: nat, key: Key, n: nat)
    requires Run(c, run) && k + n + 4 < |run| && i < |run[k].pcs| && run[k].pcs[i] == Lock(key) && c.limit > 0
    requires n == (if c.maxSize > 0 then 3 else 2) && Undisturbed(c, run, i, k, n + 4)
    requires key !in run[k].m && (c.maxSize > 0 ==> run[k].size < c.maxSize)
    ensures var t := run[k + n + 4]; i < |t.pcs| && t.pcs[i].Running? && t.pcs[i].key == key
  {
    hide Run, Undisturbed;
    Part(c, run, i, k, n + 4, 0, n);
    Part(c, run, i, k, n + 4, n, 3);
    Part(c, run, i, k, n + 4, n + 3, 1);
    NewKey(c, run, i, k, key, n);
    FullEntry(c, run, i, k + n, key);
    TokenTaken(c, run, i, k + n + 3);
  }

  lemma Part(c: Config, run: seq<State>, i: nat, k: nat, n: nat, j: nat, m: nat)
    requires k + n < |run| && Undisturbed(c, run, i, k, n) && j + m <= n
    ensures Undisturbed(c, run, i, k + j, m)
  {
    hide Step;
  }

  lemma WelcomeMeans(c: Config, s: State, key: Key)
    requires Inv(c, s) && Welcome(c, s, key)
    ensures c.limit > 0 && if key in s.m then Available(s, s.m[key]) else c.maxSize > 0 ==> s.size < c.maxSize
  {
    if key in s.m {
      var e := s.m[key];
      assert s.tokens[e] + HoldersOf(s.pcs, e) == c.limit;
    }
  }

  // ---- Nothing is left behind ----

  // When all requests have been answered the table is empty, no lock is held
  // and every token is in its channel.
  lemma QuietIsEmpty(c: Config, run: seq<State>, k: nat)
    requires Run(c, run) && k < |run| && forall i | 0 <= i < |run[k].pcs| :: run[k].pcs[i].Idle?
    ensures var s := run[k];
            s.m == map[] && s.locked == {} && (c.maxSize > 0 ==> s.size == 0) && forall e | 0 <= e < |s.tokens| :: s.tokens[e] == c.limit
  {
    RunManned(c, run, k);
    var s := run[k];
    CountNone(s.pcs, Counted);
    forall e ensures HoldersOf(s.pcs, e) == 0 && RefsTo(s.pcs, e) == 0 {
      CountNone(s.pcs, (pc: PC) => HasToken(pc) && pc.e == e);
      CountNone(s.pcs, (pc: PC) => Refers(pc) && pc.e == e);
    }
    assert forall x | x in s.m :: RefsTo(s.pcs, s.m[x]) > 0;
    assert forall e | 0 <= e < |s.tokens| :: s.tokens[e] + HoldersOf(s.pcs, e) == c.limit;
    assert s.m.Keys == {};
  }
}
