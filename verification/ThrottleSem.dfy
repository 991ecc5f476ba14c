// The counting semaphore behind ThrottleBacklog, as a step system: any number
// of requests, each at some point of its code, interleaved one atomic action
// at a time. Loads, compare-and-swaps, channel operations and timer firings
// are the atomic actions.
module ThrottleSem {
  import opened Counting

  // `limit` permits; `backlog` is the capacity of both channels.
  datatype Config = Config(limit: int, backlog: nat)

  datatype PC =
    | Idle                // not in the middleware
    | FastLoad            // tryAcquire before any waiting: about to load
    | FastCas(seen: int)  // about to swap `seen` for `seen + 1`
    | Queueing            // about to reserve a place in the queue
    | WaitLoad            // in the queue, about to load
    | WaitCas(seen: int)
    | Blocked             // in the queue, blocked on wake or the timer
    | Leaving(got: bool)  // about to give its place in the queue back
    | Holding             // running the handler
    | Sending             // permit returned, wake signal not yet sent

  datatype State = State(inUse: int, queued: nat, wake: nat, pcs: seq<PC>)

  predicate Init(c: Config, s: State) {
    && c.limit > 0 && s.inUse == 0 && s.queued == 0 && s.wake == 0
    && forall i | 0 <= i < |s.pcs| :: s.pcs[i] == Idle
  }

  // Request `i` moves to `pc`; shared state changes as given.
  function Move(s: State, i: nat, pc: PC): State
    requires i < |s.pcs|
  {
    s.(pcs := s.pcs[i := pc])
  }

  // Where the code of request `i` goes on; if it is blocked, when its timer
  // goes off.
  function Goes(c: Config, s: State, i: nat): State
    requires i < |s.pcs| && (s.pcs[i].Leaving? ==> s.queued > 0)
  {
    match s.pcs[i]
    case Idle => Move(s, i, FastLoad)
    case FastLoad => Move(s, i, if s.inUse >= c.limit then Queueing else FastCas(s.inUse))
    case FastCas(seen) => if s.inUse == seen then Move(s, i, Holding).(inUse := seen + 1) else Move(s, i, FastLoad)
    case Queueing => if s.queued < c.backlog then Move(s, i, WaitLoad).(queued := s.queued + 1) else Move(s, i, Idle)
    case WaitLoad => Move(s, i, if s.inUse >= c.limit then Blocked else WaitCas(s.inUse))
    case WaitCas(seen) =>
      if s.inUse == seen then Move(s, i, Leaving(true)).(inUse := seen + 1) else Move(s, i, WaitLoad)
    case Blocked => Move(s, i, Leaving(false))
    case Leaving(got) => Move(s, i, if got then Holding else Idle).(queued := s.queued - 1)
    case Holding => Move(s, i, Sending).(inUse := s.inUse - 1)
    case Sending => Move(s, i, Idle).(wake := if s.wake < c.backlog then s.wake + 1 else s.wake)
  }

  // Request `i` takes a wake-up out of the channel.
  function Woken(s: State, i: nat): State
    requires i < |s.pcs| && s.wake > 0
  {
    Move(s, i, WaitLoad).(wake := s.wake - 1)
  }

  // One atomic action of request `i`. Receiving from the queue waits until
  // there is something in it.
  predicate Step(c: Config, s: State, i: nat, t: State)
    requires i < |s.pcs|
  {
    || (s.pcs[i].Blocked? && s.wake > 0 && t == Woken(s, i))
    || ((s.pcs[i].Leaving? ==> s.queued > 0) && t == Goes(c, s, i))
  }

  predicate Next(c: Config, s: State, t: State) { exists i :: 0 <= i < |s.pcs| && Step(c, s, i, t) }

  predicate Run(c: Config, run: seq<State>) {
    && run != [] && Init(c, run[0])
    && forall k | 0 < k < |run| :: Next(c, run[k - 1], run[k])
  }

  // ---- The invariant ----

  predicate HoldsPermit(pc: PC) { pc == Holding || pc == Leaving(true) }
  predicate InQueue(pc: PC) { pc.WaitLoad? || pc.WaitCas? || pc.Blocked? || pc.Leaving? }
  predicate Waits(pc: PC) { pc.WaitLoad? || pc.WaitCas? || pc.Blocked? }
  predicate Retries(pc: PC) { pc.WaitLoad? || pc.WaitCas? }
  predicate Sends(pc: PC) { pc.Sending? }

  function Permits(pcs: seq<PC>): nat { Count(pcs, HoldsPermit) }
  function Queued(pcs: seq<PC>): nat { Count(pcs, InQueue) }
  function Waiters(pcs: seq<PC>): nat { Count(pcs, Waits) }
  function Retrying(pcs: seq<PC>): nat { Count(pcs, Retries) }
  function Senders(pcs: seq<PC>): nat { Count(pcs, Sends) }

  function Min(a: int, b: int): int { if a < b then a else b }

  predicate Inv(c: Config, s: State) {
    && c.limit > 0 && s.inUse == Permits(s.pcs) <= c.limit
    && s.queued == Queued(s.pcs) <= c.backlog && s.wake <= c.backlog
    && (forall i | 0 <= i < |s.pcs| :: (s.pcs[i].FastCas? || s.pcs[i].WaitCas?) ==> s.pcs[i].seen < c.limit)
    && Min(c.limit - s.inUse, Waiters(s.pcs)) <= s.wake + Retrying(s.pcs) + Senders(s.pcs)
  }

  lemma InitInv(c: Config, s: State)
    requires Init(c, s)
    ensures Inv(c, s)
  {
    CountNone(s.pcs, HoldsPermit);
    CountNone(s.pcs, InQueue);
    CountNone(s.pcs, Waits);
  }

  // What a move does to the counts.
  lemma Recount(pcs: seq<PC>, i: nat, pc: PC)
    requires i < |pcs|
    ensures var t := pcs[i := pc];
            && Permits(t) == Permits(pcs) - One(HoldsPermit(pcs[i])) + One(HoldsPermit(pc))
            && Queued(t) == Queued(pcs) - One(InQueue(pcs[i])) + One(InQueue(pc))
            && Waiters(t) == Waiters(pcs) - One(Waits(pcs[i])) + One(Waits(pc))
            && Retrying(t) == Retrying(pcs) - One(Retries(pcs[i])) + One(Retries(pc))
            && Senders(t) == Senders(pcs) - One(Sends(pcs[i])) + One(Sends(pc))
            && Waiters(t) <= Queued(t)
  {
    CountUpdate(pcs, i, pc, HoldsPermit);
    CountUpdate(pcs, i, pc, InQueue);
    CountUpdate(pcs, i, pc, Waits);
    CountUpdate(pcs, i, pc, Retries);
    CountUpdate(pcs, i, pc, Sends);
    CountWithin(pcs[i := pc], Waits, InQueue);
  }

  function One(b: bool): int { if b then 1 else 0 }

  // A step of a request in the queue ...
  lemma QueuedStepInv(c: Config, s: State, i: nat, t: State)
    requires Inv(c, s) && i < |s.pcs| && Step(c, s, i, t) && InQueue(s.pcs[i])
    ensures Inv(c, t)
  {
    Recount(s.pcs, i, t.pcs[i]);
    assert t.pcs == s.pcs[i := t.pcs[i]];
    hide Permits, Queued, Waiters, Retrying, Senders;
  }

  // ... and of one that is not.
  lemma OtherStepInv(c: Config, s: State, i: nat, t: State)
    requires Inv(c, s) && i < |s.pcs| && Step(c, s, i, t) && !InQueue(s.pcs[i])
    ensures Inv(c, t)
  {
    Recount(s.pcs, i, t.pcs[i]);
    assert t.pcs == s.pcs[i := t.pcs[i]];
    hide Permits, Queued, Waiters, Retrying, Senders;
  }

  lemma StepInv(c: Config, s: State, i: nat, t: State)
    requires Inv(c, s) && i < |s.pcs| && Step(c, s, i, t)
    ensures Inv(c, t)
  {
    hide *;
    if InQueue(s.pcs[i]) { QueuedStepInv(c, s, i, t); } else { OtherStepInv(c, s, i, t); }
  }

  lemma {:induction false} RunInv(c: Config, run: seq<State>, k: nat)
    requires Run(c, run) && k < |run|
    ensures Inv(c, run[k])
  {
    if k == 0 {
      InitInv(c, run[0]);
    } else {
      RunInv(c, run, k - 1);
      hide Inv, Step;
      var i :| 0 <= i < |run[k - 1].pcs| && Step(c, run[k - 1], i, run[k]);
      StepInv(c, run[k - 1], i, run[k]);
    }
  }

  // ---- What it is for ----

  // A request that is neither idle, running its handler nor blocked.
  predicate MidStep(pc: PC) { !pc.Idle? && !pc.Holding? && !pc.Blocked? }

  // In every state of every run: the counter is the number of permits out and
  // never above the limit, no more requests than that run their handlers, and
  // no more than the backlog wait. If a permit is free, somebody is blocked
  // and nobody is in the middle of a step, a wake signal is there for the
  // taking.
  lemma NoLostWakeUp(c: Config, run: seq<State>, k: nat)
    requires Run(c, run) && k < |run|
    ensures var s := run[k];
            && s.inUse == Permits(s.pcs) && s.inUse <= c.limit
            && Count(s.pcs, (pc: PC) => pc == Holding) <= c.limit && Waiters(s.pcs) <= c.backlog
            && ((forall i | 0 <= i < |s.pcs| :: !MidStep(s.pcs[i])) && s.inUse < c.limit && Blocked in s.pcs ==> s.wake > 0)
  {
    RunInv(c, run, k);
    var s := run[k];
    CountWithin(s.pcs, (pc: PC) => pc == Holding, HoldsPermit);
    CountWithin(s.pcs, Waits, InQueue);
    if (forall i | 0 <= i < |s.pcs| :: !MidStep(s.pcs[i])) && Blocked in s.pcs {
      CountNone(s.pcs, Retries);
      CountNone(s.pcs, Sends);
      var i :| 0 <= i < |s.pcs| && s.pcs[i] == Blocked;
      CountSome(s.pcs, i, Waits);
    }
  }

  // A free permit is always on its way to somebody: with waiters in the queue
  // some request has a step to take other than giving up.
  lemma FreePermitMovesOn(c: Config, run: seq<State>, k: nat)
    requires Run(c, run) && k < |run| && run[k].inUse < c.limit && Waiters(run[k].pcs) > 0
    ensures exists i, t :: 0 <= i < |run[k].pcs| && Step(c, run[k], i, t) && t.pcs[i] != Leaving(false)
                        && (Waits(run[k].pcs[i]) || Sends(run[k].pcs[i]))
  {
    RunInv(c, run, k);
    var s := run[k];
    if Retrying(s.pcs) > 0 {
      var i := CountWitness(s.pcs, Retries);
      Proceeds(c, s, i);
    } else if Senders(s.pcs) > 0 {
      var i := CountWitness(s.pcs, Sends);
      Proceeds(c, s, i);
    } else {
      var i := CountWitness(s.pcs, Waits);
      if s.pcs[i] != Blocked { CountSome(s.pcs, i, Retries); }
      Proceeds(c, s, i);
    }
  }

  lemma Proceeds(c: Config, s: State, i: nat)
    requires i < |s.pcs| && (Retries(s.pcs[i]) || Sends(s.pcs[i]) || (s.pcs[i] == Blocked && s.wake > 0))
    ensures exists t :: Step(c, s, i, t) && t.pcs[i] != Leaving(false)
  {
    assert Step(c, s, i, if s.pcs[i].Blocked? then Woken(s, i) else Goes(c, s, i));
  }

  // ---- When a request is let in, and when it is refused ----

  // Request `i` is the one that moves in step `k`, if it moves.
  lemma Mover(c: Config, run: seq<State>, k: nat, i: nat)
    requires Run(c, run) && k + 1 < |run| && i < |run[k].pcs|
    ensures Inv(c, run[k]) && |run[k + 1].pcs| == |run[k].pcs|
    ensures run[k + 1].pcs[i] != run[k].pcs[i] ==> Step(c, run[k], i, run[k + 1])
  {
    RunInv(c, run, k);
    hide Inv, Step;
    var j :| 0 <= j < |run[k].pcs| && Step(c, run[k], j, run[k + 1]);
    OneMoves(c, run[k], j, run[k + 1]);
  }

  lemma OneMoves(c: Config, s: State, i: nat, t: State)
    requires i < |s.pcs| && Step(c, s, i, t)
    ensures |t.pcs| == |s.pcs| && forall j | 0 <= j < |s.pcs| && j != i :: t.pcs[j] == s.pcs[j]
  {
  }

  // A request asks for a place in the queue only after it found every permit
  // out.
  lemma QueuesAtLimit(c: Config, run: seq<State>, k: nat, i: nat)
    requires Run(c, run) && k + 1 < |run| && i < |run[k].pcs| == |run[k + 1].pcs|
    requires run[k].pcs[i] != Queueing && run[k + 1].pcs[i] == Queueing
    ensures Permits(run[k].pcs) == c.limit
  {
    Mover(c, run, k, i);
  }

  // It gets the place if there is one, and is refused exactly if all are taken.
  lemma QueueTaken(c: Config, run: seq<State>, k: nat, i: nat)
    requires Run(c, run) && k + 1 < |run| && i < |run[k].pcs| == |run[k + 1].pcs|
    requires run[k].pcs[i] == Queueing && run[k + 1].pcs[i] != Queueing
    ensures if Queued(run[k].pcs) == c.backlog then run[k + 1].pcs[i] == Idle
            else InQueue(run[k + 1].pcs[i]) && Queued(run[k + 1].pcs) == Queued(run[k].pcs) + 1
  {
    Mover(c, run, k, i);
    RunInv(c, run, k + 1);
  }

  // In step `l` the timer of request `i` goes off while it is in the queue.
  predicate TimesOut(run: seq<State>, i: nat, l: nat)
    requires l + 1 < |run| && i < |run[l].pcs| == |run[l + 1].pcs|
  {
    run[l].pcs[i] == Blocked && run[l + 1].pcs[i] == Leaving(false)
  }

  // In step `l` it finds the queue full, having found every permit out before.
  predicate TurnedAway(c: Config, run: seq<State>, i: nat, j: nat, l: nat)
    requires j <= l && l + 1 < |run| && i < |run[l].pcs| == |run[l + 1].pcs|
  {
    && run[l].pcs[i] == Queueing && run[l + 1].pcs[i] == Idle && Queued(run[l].pcs) == c.backlog
    && exists m | j <= m < l :: Permits(run[m].pcs) == c.limit
  }

  predicate SameRequests(run: seq<State>, i: nat) { forall l | 0 <= l < |run| :: i < |run[l].pcs| == |run[0].pcs| }

  lemma {:induction false} RequestsStay(c: Config, run: seq<State>, i: nat, k: nat)
    requires Run(c, run) && k < |run| && i < |run[0].pcs|
    ensures |run[k].pcs| == |run[0].pcs|
  {
    if k > 0 {
      RequestsStay(c, run, i, k - 1);
      Mover(c, run, k - 1, i);
    }
  }

  // Between its arrival before state `j` and state `k` the request has neither
  // been let in nor given its answer.
  predicate Undecided(run: seq<State>, i: nat, j: nat, k: nat)
    requires SameRequests(run, i) && j <= k <= |run|
  {
    forall l | j <= l < k :: run[l].pcs[i] != Idle && run[l].pcs[i] != Holding
  }

  // What such a request has been through.
  predicate History(c: Config, run: seq<State>, i: nat, j: nat, k: nat)
    requires SameRequests(run, i) && j <= k < |run|
  {
    match run[k].pcs[i]
    case Queueing => exists m | j <= m < k :: Permits(run[m].pcs) == c.limit
    case Leaving(got) => !got ==> exists l | j <= l < k :: TimesOut(run, i, l)
    case Idle => exists l | j <= l < k :: TimesOut(run, i, l) || TurnedAway(c, run, i, j, l)
    case Sending => false
    case _ => true
  }

  lemma HistoryStep(c: Config, run: seq<State>, i: nat, j: nat, k: nat)
    requires Run(c, run) && SameRequests(run, i) && j <= k && k + 1 < |run|
    requires History(c, run, i, j, k) && run[k].pcs[i] != Idle && run[k].pcs[i] != Holding
    ensures History(c, run, i, j, k + 1)
  {
    Mover(c, run, k, i);
    var pc, next := run[k].pcs[i], run[k + 1].pcs[i];
    if pc != next {
      if pc == Queueing { QueueTaken(c, run, k, i); }
      if next == Queueing { QueuesAtLimit(c, run, k, i); }
      hide Permits, Queued;
      if pc == Blocked && next == Leaving(false) { assert TimesOut(run, i, k); }
      if pc == Queueing && next == Idle { assert TurnedAway(c, run, i, j, k); }
    }
  }

  lemma {:induction false} Histories(c: Config, run: seq<State>, i: nat, j: nat, k: nat)
    requires Run(c, run) && SameRequests(run, i) && j <= k < |run| && run[j].pcs[i] == FastLoad && Undecided(run, i, j, k)
    ensures History(c, run, i, j, k)
    decreases k
  {
    if j < k {
      Histories(c, run, i, j, k - 1);
      HistoryStep(c, run, i, j, k - 1);
    }
  }

  // A request that gets its answer without having run its handler waited until
  // its timer went off, or found every permit out and then the queue full.
  lemma RefusedOnlyThen(c: Config, run: seq<State>, i: nat, j: nat, k: nat)
    requires Run(c, run) && j < k < |run| && i < |run[0].pcs|
    ensures SameRequests(run, i)
    ensures run[j].pcs[i] == FastLoad && Undecided(run, i, j, k) && run[k].pcs[i] == Idle ==>
              exists l | j <= l < k :: TimesOut(run, i, l) || TurnedAway(c, run, i, j, l)
  {
    forall l | 0 <= l < |run| ensures i < |run[l].pcs| == |run[0].pcs| { RequestsStay(c, run, i, l); }
    if run[j].pcs[i] == FastLoad && Undecided(run, i, j, k) && run[k].pcs[i] == Idle {
      Histories(c, run, i, j, k);
    }
  }

  // Steps `k` to `k + n` are all those of request `i`.
  predicate Undisturbed(c: Config, run: seq<State>, i: nat, k: nat, n: nat)
    requires k + n < |run|
  {
    forall l | k <= l < k + n :: i < |run[l].pcs| && Step(c, run[l], i, run[l + 1])
  }

  // What becomes of a request that nobody gets in the way of: with a permit
  // free it runs its handler three steps after it arrives ...
  lemma FreePermitTaken(c: Config, run: seq<State>, i: nat, k: nat)
    requires k + 3 < |run| && Undisturbed(c, run, i, k, 3) && i < |run[k].pcs| && run[k].pcs[i] == Idle
    requires run[k].inUse < c.limit
    ensures i < |run[k + 3].pcs| && run[k + 3].pcs[i] == Holding && run[k + 3].inUse == run[k].inUse + 1
  {
    assert Step(c, run[k], i, run[k + 1]) && Step(c, run[k + 1], i, run[k + 2]) && Step(c, run[k + 2], i, run[k + 3]);
  }

  // ... with none free it waits if there is a place in the queue, and is
  // refused if there is none ...
  lemma NoPermitWaits(c: Config, run: seq<State>, i: nat, k: nat)
    requires k + 4 < |run| && Undisturbed(c, run, i, k, 4) && i < |run[k].pcs| && run[k].pcs[i] == Idle
    requires run[k].inUse >= c.limit
    ensures i < |run[k + 3].pcs| == |run[k + 4].pcs|
    ensures if run[k].queued < c.backlog then run[k + 4].pcs[i] == Blocked && run[k + 4].queued == run[k].queued + 1
            else run[k + 3].pcs[i] == Idle && run[k + 3] == run[k]
  {
    assert Step(c, run[k], i, run[k + 1]) && Step(c, run[k + 1], i, run[k + 2]);
    assert Step(c, run[k + 2], i, run[k + 3]) && Step(c, run[k + 3], i, run[k + 4]);
    assert run[k].queued >= c.backlog ==> run[k + 3].pcs == run[k].pcs;
  }

  // ... and a waiting one that takes a wake-up with a permit free runs its
  // handler four steps later, its place in the queue given back.
  lemma WakeUpUsed(c: Config, run: seq<State>, i: nat, k: nat)
    requires k + 4 < |run| && Undisturbed(c, run, i, k, 4) && i < |run[k].pcs| && run[k].pcs[i] == Blocked
    requires run[k].inUse < c.limit && !TimesOutFrom(run[k + 1], i)
    ensures i < |run[k + 4].pcs| && run[k + 4].pcs[i] == Holding
    ensures run[k + 4].inUse == run[k].inUse + 1 && run[k + 4].queued == run[k].queued - 1 && run[k + 4].wake == run[k].wake - 1
  {
    assert Step(c, run[k], i, run[k + 1]) && Step(c, run[k + 1], i, run[k + 2]);
    assert Step(c, run[k + 2], i, run[k + 3]) && Step(c, run[k + 3], i, run[k + 4]);
  }

  predicate TimesOutFrom(t: State, i: nat) { i < |t.pcs| && t.pcs[i] == Leaving(false) }

  // No request is ever stuck, and only one that is blocked has a choice: the
  // wake-up, if there is one, or the timer.
  lemma NeverStuck(c: Config, run: seq<State>, k: nat, i: nat) returns (t: State)
    requires Run(c, run) && k < |run| && i < |run[k].pcs|
    ensures Step(c, run[k], i, t)
    ensures run[k].pcs[i] == Blocked ==> (run[k].wake > 0 <==> t.pcs[i] != Leaving(false))
    ensures forall u :: Step(c, run[k], i, u) && run[k].pcs[i] != Blocked ==> u == t
  {
    RunInv(c, run, k);
    var s := run[k];
    if s.pcs[i].Leaving? { CountSome(s.pcs, i, InQueue); }
    t := if s.pcs[i].Blocked? && s.wake > 0 then Woken(s, i) else Goes(c, s, i);
  }
}
