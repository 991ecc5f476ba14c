// Concurrent introspections of the same token share one upstream call: the
// group as a step system, with any number of callers interleaving between
// its critical sections, the upstream call and the channel.
module Singleflight {
  import opened Wrappers

  type Key = string

  // What the upstream call returned: a response or an error.
  type Answer = nat

  // Calls are numbered as they are started. `result` is unset until the
  // upstream call has returned; `done` is whether the channel is closed.
  datatype Call = Call(key: Key, result: Option<Answer>, done: bool)

  // What `do` returns: what it read from the call, or its context's error.
  datatype Outcome = Read(result: Option<Answer>) | Cancelled

  datatype PC =
    | Idle
    | Enter(key: Key)                         // about to look the key up
    | Follow(key: Key, call: nat)             // waits for the call or its own context
    | Lead(key: Key, call: nat)               // about to start the upstream call
    | Running(key: Key, call: nat)            // the upstream call is under way
    | Remove(key: Key, call: nat)             // it has returned: about to delete the key
    | Close(key: Key, call: nat)              // about to close the channel
    | Return(key: Key, call: nat, outcome: Outcome)

  // The map of running calls, all calls ever started, and the callers.
  datatype State = State(calls: map<Key, nat>, log: seq<Call>, pcs: seq<PC>)

  predicate Init(s: State) {
    s.calls == map[] && s.log == [] && forall i | 0 <= i < |s.pcs| :: s.pcs[i] == Idle
  }

  function Move(s: State, i: nat, pc: PC): State
    requires i < |s.pcs|
  {
    s.(pcs := s.pcs[i := pc])
  }

  // Reading from the channel waits until it is closed.
  predicate Can(s: State, i: nat)
    requires i < |s.pcs|
  {
    var pc := s.pcs[i];
    (pc.Follow? || pc.Running? || pc.Close? ==> pc.call < |s.log|) && (pc.Follow? ==> s.log[pc.call].done)
  }

  // Where the code of caller `i` goes on, when it asks for `wanted` next and
  // the upstream answer is `x`. The lock makes looking up and inserting one
  // step.
  function Goes(s: State, i: nat, wanted: Key, x: Answer): State
    requires i < |s.pcs| && Can(s, i)
  {
    match s.pcs[i]
    case Idle => Move(s, i, Enter(wanted))
    case Enter(key) =>
      if key in s.calls then Move(s, i, Follow(key, s.calls[key]))
      else Move(s, i, Lead(key, |s.log|)).(log := s.log + [Call(key, None, false)], calls := s.calls[key := |s.log|])
    case Follow(key, c) => Move(s, i, Return(key, c, Read(s.log[c].result)))
    case Lead(key, c) => Move(s, i, Running(key, c))
    case Running(key, c) => Move(s, i, Remove(key, c)).(log := s.log[c := s.log[c].(result := Some(x))])
    case Remove(key, c) => Move(s, i, Close(key, c)).(calls := s.calls - {key})
    case Close(key, c) => Move(s, i, Return(key, c, Read(s.log[c].result))).(log := s.log[c := s.log[c].(done := true)])
    case Return(_, _, _) => Move(s, i, Idle)
  }

  // One step of caller `i`: it goes on, or its context is done while it waits
  // for another's call.
  ghost predicate Step(s: State, i: nat, t: State)
    requires i < |s.pcs|
  {
    || (s.pcs[i].Follow? && t == Move(s, i, Return(s.pcs[i].key, s.pcs[i].call, Cancelled)))
    || (Can(s, i) && exists wanted, x :: t == Goes(s, i, wanted, x))
  }

  ghost predicate Next(s: State, t: State) { exists i :: 0 <= i < |s.pcs| && Step(s, i, t) }

  ghost predicate Run(run: seq<State>) {
    && run != [] && Init(run[0])
    && forall k | 0 < k < |run| :: Next(run[k - 1], run[k])
  }

  // ---- The invariant ----

  predicate Joined(pc: PC) { !pc.Idle? && !pc.Enter? }
  // Leads a call whose key is still in the map.
  predicate Leads(pc: PC) { pc.Lead? || pc.Running? || pc.Remove? }
  predicate Owns(pc: PC) { Leads(pc) || pc.Close? }

  // What a caller knows of the call it has joined.
  predicate Knows(s: State, pc: PC) {
    Joined(pc) ==>
      && pc.call < |s.log| && s.log[pc.call].key == pc.key
      && (Leads(pc) ==> pc.key in s.calls && s.calls[pc.key] == pc.call)
      && (Owns(pc) ==> !s.log[pc.call].done && (s.log[pc.call].result.Some? <==> pc.Remove? || pc.Close?))
      && (pc.Return? && pc.outcome.Read? ==> s.log[pc.call].result.Some? && pc.outcome.result == s.log[pc.call].result)
  }

  predicate AllKnow(s: State) { forall i | 0 <= i < |s.pcs| :: Knows(s, s.pcs[i]) }

  predicate OneOwner(s: State) {
    forall i, j | 0 <= i < j < |s.pcs| && Owns(s.pcs[i]) && Owns(s.pcs[j]) :: s.pcs[i].call != s.pcs[j].call
  }

  // Every call in the map is led by somebody.
  predicate Led(s: State) {
    forall k | k in s.calls ::
      && s.calls[k] < |s.log| && s.log[s.calls[k]].key == k
      && exists i :: 0 <= i < |s.pcs| && Leads(s.pcs[i]) && s.pcs[i].call == s.calls[k]
  }

  predicate Inv(s: State) {
    && AllKnow(s) && OneOwner(s) && Led(s)
    && forall c | 0 <= c < |s.log| && s.log[c].done :: s.log[c].result.Some?
  }

  lemma OwnersDiffer(s: State, i: nat, j: nat)
    requires OneOwner(s) && i < |s.pcs| && j < |s.pcs| && i != j && Owns(s.pcs[i]) && Owns(s.pcs[j])
    ensures s.pcs[i].call != s.pcs[j].call
  {
  }

  // What the others know stays true.
  lemma OthersKnow(s: State, i: nat, t: State, j: nat)
    requires Inv(s) && i < |s.pcs| && Step(s, i, t) && j < |s.pcs| && j != i
    ensures Knows(t, s.pcs[j])
  {
    assert Knows(s, s.pcs[j]) && Knows(s, s.pcs[i]);
    if Owns(s.pcs[i]) && Owns(s.pcs[j]) { OwnersDiffer(s, i, j); }
    hide AllKnow, OneOwner, Led;
  }

  lemma SelfKnows(s: State, i: nat, t: State)
    requires Inv(s) && i < |s.pcs| && Step(s, i, t)
    ensures Knows(t, t.pcs[i]) && forall c | 0 <= c < |t.log| && t.log[c].done :: t.log[c].result.Some?
  {
    assert Knows(s, s.pcs[i]);
    hide AllKnow, OneOwner;
  }

  lemma OwnersKept(s: State, i: nat, t: State)
    requires Inv(s) && i < |s.pcs| && Step(s, i, t)
    ensures OneOwner(t)
  {
    var pc := t.pcs[i];
    assert t.pcs == s.pcs[i := pc];
    if s.pcs[i].Enter? {
      forall j | 0 <= j < |s.pcs| && Owns(s.pcs[j]) ensures s.pcs[j].call < |s.log| { assert Knows(s, s.pcs[j]); }
    }
    hide AllKnow, Led;
    assert Owns(pc) && !s.pcs[i].Enter? ==> Owns(s.pcs[i]) && s.pcs[i].call == pc.call;
  }

  lemma LedKept(s: State, i: nat, t: State)
    requires Inv(s) && i < |s.pcs| && Step(s, i, t)
    ensures Led(t)
  {
    CallsKept(s, i, t);
    assert Led(s);
    hide Step, Inv;
    forall k | k in t.calls ensures exists j :: 0 <= j < |t.pcs| && Leads(t.pcs[j]) && t.pcs[j].call == t.calls[k] {
      if !(Leads(t.pcs[i]) && t.pcs[i].call == t.calls[k]) {
        var j :| 0 <= j < |s.pcs| && Leads(s.pcs[j]) && s.pcs[j].call == s.calls[k];
        assert t.pcs[j] == s.pcs[j];
      }
    }
  }

  // A call in the map is that of the caller that has moved, or was there and
  // is led by another.
  lemma CallsKept(s: State, i: nat, t: State)
    requires Inv(s) && i < |s.pcs| && Step(s, i, t)
    ensures i < |t.pcs| == |s.pcs| && forall j | 0 <= j < |s.pcs| && j != i :: t.pcs[j] == s.pcs[j]
    ensures forall k | k in t.calls ::
              && t.calls[k] < |t.log| && t.log[t.calls[k]].key == k
              && ((Leads(t.pcs[i]) && t.pcs[i].call == t.calls[k]) ||
                  (k in s.calls && s.calls[k] == t.calls[k] && !(Leads(s.pcs[i]) && s.pcs[i].call == s.calls[k])))
  {
    assert Knows(s, s.pcs[i]);
    hide AllKnow, OneOwner;
  }

  lemma StepInv(s: State, i: nat, t: State)
    requires Inv(s) && i < |s.pcs| && Step(s, i, t)
    ensures Inv(t)
  {
    SelfKnows(s, i, t);
    OwnersKept(s, i, t);
    LedKept(s, i, t);
    assert t.pcs == s.pcs[i := t.pcs[i]];
    forall j | 0 <= j < |t.pcs| ensures Knows(t, t.pcs[j]) {
      if j != i { OthersKnow(s, i, t, j); }
    }
    hide Knows, OneOwner, Led, Step;
  }

  lemma {:induction false} RunInv(run: seq<State>, k: nat)
    requires Run(run) && k < |run|
    ensures Inv(run[k])
  {
    if k > 0 {
      RunInv(run, k - 1);
      var i :| 0 <= i < |run[k - 1].pcs| && Step(run[k - 1], i, run[k]);
      StepInv(run[k - 1], i, run[k]);
    }
  }

  // ---- What it is for ----

  // At most one upstream call per key is under way.
  lemma OneCallPerKey(run: seq<State>, k: nat, i: nat, j: nat)
    requires Run(run) && k < |run| && i < |run[k].pcs| && j < |run[k].pcs| && i != j
    requires run[k].pcs[i].Running? && run[k].pcs[j].Running?
    ensures run[k].pcs[i].key != run[k].pcs[j].key
  {
    RunInv(run, k);
    var a, b := run[k].pcs[i], run[k].pcs[j];
    assert Knows(run[k], a) && Knows(run[k], b);
  }

  // The answer a call has got it keeps, and its key.
  predicate Keeps(s: State, t: State) {
    && |s.log| <= |t.log|
    && forall c | 0 <= c < |s.log| ::
         t.log[c].key == s.log[c].key && (s.log[c].result.Some? ==> t.log[c].result == s.log[c].result)
  }

  lemma StepKeeps(s: State, i: nat, t: State)
    requires Inv(s) && i < |s.pcs| && Step(s, i, t)
    ensures Keeps(s, t)
  {
    assert Knows(s, s.pcs[i]);
  }

  lemma KeepsOn(s: State, t: State, u: State)
    requires Keeps(s, t) && Keeps(t, u)
    ensures Keeps(s, u)
  {
  }

  lemma {:induction false} RunKeeps(run: seq<State>, j: nat, k: nat)
    requires Run(run) && j <= k < |run|
    ensures Keeps(run[j], run[k])
  {
    if j < k {
      RunKeeps(run, j, k - 1);
      RunInv(run, k - 1);
      hide Inv, Step;
      var i :| 0 <= i < |run[k - 1].pcs| && Step(run[k - 1], i, run[k]);
      StepKeeps(run[k - 1], i, run[k]);
      KeepsOn(run[j], run[k - 1], run[k]);
    }
  }

  // Caller `i` has joined call `c` and stays with it.
  predicate StaysWith(run: seq<State>, j: nat, k: nat, i: nat, c: nat)
    requires j <= k < |run|
  {
    forall l | j <= l <= k :: i < |run[l].pcs| && Joined(run[l].pcs[i]) && run[l].pcs[i].call == c
  }

  // A caller that does not cancel returns the answer of the one call it
  // joined: the answer is set, and it is the one that call ends up with.
  lemma ReturnsTheCallItJoined(run: seq<State>, j: nat, k: nat, i: nat)
    requires Run(run) && j < k < |run| && i < |run[j].pcs| == |run[k].pcs|
    requires run[j].pcs[i].Follow? || run[j].pcs[i].Lead?
    requires run[k].pcs[i].Return? && run[k].pcs[i].outcome.Read?
    requires StaysWith(run, j, k, i, run[j].pcs[i].call)
    ensures var c := run[j].pcs[i].call;
            && c < |run[|run| - 1].log| && run[|run| - 1].log[c].key == run[j].pcs[i].key
            && run[k].pcs[i].outcome.result.Some?
            && run[k].pcs[i].outcome.result == run[|run| - 1].log[c].result
  {
    var c := run[j].pcs[i].call;
    RunInv(run, j);
    RunInv(run, k);
    assert Knows(run[j], run[j].pcs[i]);
    assert run[k].pcs[i].call == c && Knows(run[k], run[k].pcs[i]);
    RunKeeps(run, j, |run| - 1);
    RunKeeps(run, k, |run| - 1);
  }

  // A caller that joins a call finds it unfinished: no answer is handed to
  // anyone who comes after its channel was closed.
  lemma JoinsOnlyRunning(run: seq<State>, k: nat, key: Key)
    requires Run(run) && k < |run| && key in run[k].calls
    ensures run[k].calls[key] < |run[k].log|
    ensures exists i :: 0 <= i < |run[k].pcs| && Leads(run[k].pcs[i]) && run[k].pcs[i].call == run[k].calls[key]
    ensures !run[k].log[run[k].calls[key]].done
  {
    RunInv(run, k);
  }

  // ---- Who waits for whom ----

  lemma OneMoves(s: State, i: nat, t: State)
    requires i < |s.pcs| && Step(s, i, t)
    ensures |t.pcs| == |s.pcs| && forall j | 0 <= j < |s.pcs| && j != i :: t.pcs[j] == s.pcs[j]
  {
  }

  // Caller `i` is the one that moves in step `k`, if it moves.
  lemma Mover(run: seq<State>, k: nat, i: nat)
    requires Run(run) && k + 1 < |run| && i < |run[k].pcs|
    ensures Inv(run[k]) && |run[k + 1].pcs| == |run[k].pcs|
    ensures run[k + 1].pcs[i] != run[k].pcs[i] ==> Step(run[k], i, run[k + 1])
  {
    RunInv(run, k);
    hide Inv, Step;
    var j :| 0 <= j < |run[k].pcs| && Step(run[k], j, run[k + 1]);
    OneMoves(run[k], j, run[k + 1]);
  }

  // A caller that comes for a key while somebody leads a call for it joins
  // that call and starts none.
  lemma JoinsTheLeader(run: seq<State>, k: nat, i: nat, j: nat)
    requires Run(run) && k + 1 < |run| && i < |run[k].pcs| && j < |run[k].pcs|
    requires Leads(run[k].pcs[i]) && run[k].pcs[j] == Enter(run[k].pcs[i].key)
    ensures |run[k + 1].pcs| == |run[k].pcs|
    ensures run[k + 1].pcs[j] != run[k].pcs[j] ==>
              run[k + 1].pcs[j] == Follow(run[k].pcs[i].key, run[k].pcs[i].call) && run[k + 1].log == run[k].log
  {
    Mover(run, k, j);
    assert Knows(run[k], run[k].pcs[i]);
  }

  // Only a caller that waits for another's call returns its context's error.
  lemma OnlyWaitersCancel(run: seq<State>, k: nat, i: nat)
    requires Run(run) && k + 1 < |run| && i < |run[k].pcs| == |run[k + 1].pcs| && run[k + 1].pcs[i] != run[k].pcs[i]
    requires run[k + 1].pcs[i].Return? && run[k + 1].pcs[i].outcome.Cancelled?
    ensures run[k].pcs[i].Follow?
  {
    Mover(run, k, i);
  }

  // Every call whose channel is open has somebody who will close it.
  predicate Attended(s: State) {
    forall c | 0 <= c < |s.log| && !s.log[c].done :: exists i :: 0 <= i < |s.pcs| && Owns(s.pcs[i]) && s.pcs[i].call == c
  }

  lemma StepAttended(s: State, i: nat, t: State)
    requires Attended(s) && i < |s.pcs| && Step(s, i, t)
    ensures Attended(t)
  {
    OneMoves(s, i, t);
    CallsOf(s, i, t);
    hide Step;
    forall c | 0 <= c < |t.log| && !t.log[c].done
      ensures exists j :: 0 <= j < |t.pcs| && Owns(t.pcs[j]) && t.pcs[j].call == c
    {
      if c < |s.log| && !(Owns(t.pcs[i]) && t.pcs[i].call == c) {
        var j :| 0 <= j < |s.pcs| && Owns(s.pcs[j]) && s.pcs[j].call == c;
        assert j != i && Owns(t.pcs[j]) && t.pcs[j].call == c;
      } else {
        assert Owns(t.pcs[i]) && t.pcs[i].call == c;
      }
    }
  }

  // A step leaves a call unowned only by closing it.
  lemma CallsOf(s: State, i: nat, t: State)
    requires i < |s.pcs| && Step(s, i, t)
    ensures i < |t.pcs|
    ensures |t.log| == |s.log| || (|t.log| == |s.log| + 1 && Owns(t.pcs[i]) && t.pcs[i].call == |s.log|)
    ensures forall c | 0 <= c < |s.log| :: s.log[c].done ==> t.log[c].done
    ensures Owns(s.pcs[i]) && s.pcs[i].call < |s.log| ==>
              (Owns(t.pcs[i]) && t.pcs[i].call == s.pcs[i].call) || t.log[s.pcs[i].call].done
  {
  }

  lemma {:induction false} RunAttended(run: seq<State>, k: nat)
    requires Run(run) && k < |run|
    ensures Attended(run[k])
  {
    if k > 0 {
      RunAttended(run, k - 1);
      hide Step, Attended;
      var i :| 0 <= i < |run[k - 1].pcs| && Step(run[k - 1], i, run[k]);
      StepAttended(run[k - 1], i, run[k]);
    }
  }

  // Nobody waits in vain: a caller has a step to take other than giving up, or
  // waits for a call whose owner has.
  lemma NobodyWaitsInVain(run: seq<State>, k: nat, i: nat) returns (j: nat, t: State)
    requires Run(run) && k < |run| && i < |run[k].pcs|
    ensures j < |run[k].pcs| && Step(run[k], j, t)
    ensures j == i || (run[k].pcs[i].Follow? && Owns(run[k].pcs[j]) && run[k].pcs[j].call == run[k].pcs[i].call)
    ensures t.pcs != run[k].pcs && (j < |t.pcs| && t.pcs[j].Return? ==> t.pcs[j].outcome.Read? && t.pcs[j].outcome.result.Some?)
  {
    RunInv(run, k);
    RunAttended(run, k);
    var s := run[k];
    assert Knows(s, s.pcs[i]);
    hide Inv, Run, Step;
    j := i;
    if s.pcs[i].Follow? && !s.log[s.pcs[i].call].done {
      j := Owner(s, s.pcs[i].call);
    }
    t := Onward(s, j);
  }

  lemma Owner(s: State, c: nat) returns (j: nat)
    requires Attended(s) && c < |s.log| && !s.log[c].done
    ensures j < |s.pcs| && Owns(s.pcs[j]) && s.pcs[j].call == c
  {
    j :| 0 <= j < |s.pcs| && Owns(s.pcs[j]) && s.pcs[j].call == c;
  }

  lemma Onward(s: State, i: nat) returns (t: State)
    requires Inv(s) && i < |s.pcs| && (s.pcs[i].Follow? ==> s.pcs[i].call < |s.log| && s.log[s.pcs[i].call].done)
    ensures Step(s, i, t) && t.pcs != s.pcs
    ensures i < |t.pcs| && (t.pcs[i].Return? ==> t.pcs[i].outcome.Read? && t.pcs[i].outcome.result.Some?)
  {
    assert Knows(s, s.pcs[i]);
    t := Goes(s, i, "", 0);
    assert t.pcs[i] != s.pcs[i];
  }

  // A caller that comes first and is not disturbed makes one upstream call,
  // returns its answer, and leaves no call running.
  lemma LeaderAnswers(run: seq<State>, k: nat, i: nat, key: Key)
    requires k + 5 < |run| && forall l | k <= l < k + 5 :: i < |run[l].pcs| && Step(run[l], i, run[l + 1])
    requires run[k].pcs[i] == Enter(key) && key !in run[k].calls
    ensures var t := run[k + 5];
            && |t.log| == |run[k].log| + 1 && t.calls == run[k].calls && i < |t.pcs|
            && var c := t.log[|run[k].log|];
               c.key == key && c.done && c.result.Some? && t.pcs[i] == Return(key, |run[k].log|, Read(c.result))
  {
    assert Step(run[k], i, run[k + 1]) && Step(run[k + 1], i, run[k + 2]) && Step(run[k + 2], i, run[k + 3]);
    assert Step(run[k + 3], i, run[k + 4]) && Step(run[k + 4], i, run[k + 5]);
    assert run[k + 4].calls == run[k].calls;
  }
}
