// The per-key table behind ThrottlePerIPCapped, as a step system: requests
// interleave between the lock, map, counter, channel and pool operations of
// acquire, the handler's deferred return and decRefs.
module ThrottleTable {
  import opened Counting

  type Key = string
  type Entry = nat

  // `limit` tokens per key; at most `maxSize` keys if positive. Keys are
  // spread over independently locked shards.
  datatype Config = Config(limit: nat, maxSize: int, shard: Key -> nat)

  // A request's position in the code.
  datatype PC =
    | Idle
    | Lock(key: Key)                          // acquire: about to lock the shard
    | Look(key: Key)                          // locked, about to look the key up
    | Reserve(key: Key)                       // about to count one more key
    | Rollback(key: Key)                      // one too many: about to count it off again
    | Full(key: Key)                          // about to unlock and answer 503
    | Fetch(key: Key)                         // about to ask the pool
    | Insert(key: Key, e: Entry)              // about to put the entry into the map
    | Got(key: Key, e: Entry)                 // about to unlock
    | Taking(key: Key, e: Entry)              // trying for a token
    | Waiting(key: Key, e: Entry)             // blocked on the channel or the timer
    | Running(key: Key, e: Entry)             // has a token
    | Returning(key: Key, e: Entry)           // about to send the token back
    | Dropping(key: Key, e: Entry)            // decRefs: about to lock the shard
    | Dec(key: Key, e: Entry)                 // locked, about to count its reference off
    | Unlock(key: Key, e: Entry, last: bool)  // about to unlock
    | Shrink(e: Entry)                        // entry removed: about to count the key off
    | Put(e: Entry)                           // about to give the entry to the pool

  // Entries are numbered as they are made; each has a channel of capacity
  // `limit`, of which tokens[e] are in it, and a reference count.
  datatype State = State(tokens: seq<nat>, refs: seq<int>, m: map<Key, Entry>, locked: set<nat>, size: int,
                         pool: set<Entry>, pcs: seq<PC>)

  predicate Init(c: Config, s: State) {
    && s.tokens == [] && s.refs == [] && s.m == map[] && s.locked == {} && s.size == 0 && s.pool == {}
    && forall i | 0 <= i < |s.pcs| :: s.pcs[i] == Idle
  }

  predicate InShard(pc: PC) {
    pc.Look? || pc.Reserve? || pc.Rollback? || pc.Full? || pc.Fetch? || pc.Insert? || pc.Got? || pc.Dec? || pc.Unlock?
  }

  // Counted in the entry's refs.
  predicate Refers(pc: PC) {
    pc.Got? || pc.Taking? || pc.Waiting? || pc.Running? || pc.Returning? || pc.Dropping? || pc.Dec?
  }

  predicate HasToken(pc: PC) { pc.Running? || pc.Returning? }

  // Has the entry to itself, outside map and pool.
  predicate Owns(pc: PC) { pc.Insert? || (pc.Unlock? && pc.last) || pc.Shrink? || pc.Put? }

  // Between the lookup that found nothing and the insertion.
  predicate Absent(pc: PC) { pc.Reserve? || pc.Rollback? || pc.Fetch? || pc.Insert? }

  // Counted in size although the map does not have the key: about to insert
  // it, or about to count a removed one off.
  predicate Approved(pc: PC) { pc.Fetch? || pc.Insert? || (pc.Unlock? && pc.last) || pc.Shrink? }
  predicate Counted(pc: PC) { Approved(pc) || pc.Rollback? }

  function Move(s: State, i: nat, pc: PC): State
    requires i < |s.pcs|
  {
    s.(pcs := s.pcs[i := pc])
  }

  // Locking waits until the shard is free, sending until there is room.
  predicate Can(c: Config, s: State, i: nat)
    requires i < |s.pcs|
  {
    match s.pcs[i]
    case Idle => false
    case Lock(key) => c.shard(key) !in s.locked
    case Dropping(key, _) => c.shard(key) !in s.locked
    case Look(key) => key in s.m ==> s.m[key] < |s.refs|
    case Insert(_, e) => e < |s.refs|
    case Dec(_, e) => e < |s.refs|
    case Returning(_, e) => HasRoom(c, s, e)
    case _ => true
  }

  // Where the code of request `i` goes on. The pool has nothing for it, and
  // its timer goes off when it waits.
  function Goes(c: Config, s: State, i: nat): State
    requires i < |s.pcs| && Can(c, s, i)
  {
    match s.pcs[i]
    case Lock(key) => Locked(c, s, i, key, Look(key))
    case Look(key) =>
      if key in s.m then Move(s, i, Got(key, s.m[key])).(refs := s.refs[s.m[key] := s.refs[s.m[key]] + 1])
      else Move(s, i, if c.maxSize > 0 then Reserve(key) else Fetch(key))
    case Reserve(key) => Move(s, i, if s.size + 1 > c.maxSize then Rollback(key) else Fetch(key)).(size := s.size + 1)
    case Rollback(key) => Move(s, i, Full(key)).(size := s.size - 1)
    case Full(key) => Unlocked(c, s, i, key, Idle)
    case Fetch(key) => Move(s, i, Insert(key, |s.tokens|)).(tokens := s.tokens + [c.limit], refs := s.refs + [0])
    case Insert(key, e) => Move(s, i, Got(key, e)).(refs := s.refs[e := 1], m := s.m[key := e])
    case Got(key, e) => Unlocked(c, s, i, key, Taking(key, e))
    case Taking(key, e) => if Available(s, e) then Taken(s, i, key, e) else Move(s, i, Waiting(key, e))
    case Waiting(key, e) => Move(s, i, Dropping(key, e))
    case Running(key, e) => Move(s, i, Returning(key, e))
    case Returning(key, e) => Move(s, i, Dropping(key, e)).(tokens := s.tokens[e := s.tokens[e] + 1])
    case Dropping(key, e) => Locked(c, s, i, key, Dec(key, e))
    case Dec(key, e) =>
      var left := s.refs[e] - 1;
      Move(s, i, Unlock(key, e, left == 0)).(refs := s.refs[e := left], m := if left == 0 then s.m - {key} else s.m)
    case Unlock(key, e, last) => Unlocked(c, s, i, key, if !last then Idle else if c.maxSize > 0 then Shrink(e) else Put(e))
    case Shrink(e) => Move(s, i, Put(e)).(size := s.size - 1)
    case Put(e) => Move(s, i, Idle).(pool := s.pool + {e})
  }

  function Locked(c: Config, s: State, i: nat, key: Key, pc: PC): State
    requires i < |s.pcs|
  {
    Move(s, i, pc).(locked := s.locked + {c.shard(key)})
  }

  function Unlocked(c: Config, s: State, i: nat, key: Key, pc: PC): State
    requires i < |s.pcs|
  {
    Move(s, i, pc).(locked := s.locked - {c.shard(key)})
  }

  // One atomic action of request `i`: it arrives with some key, the pool has
  // an entry for it, or it gets the token it waits for; or it goes on.
  ghost predicate Step(c: Config, s: State, i: nat, t: State)
    requires i < |s.pcs|
  {
    var pc := s.pcs[i];
    || (pc.Idle? && exists key: Key :: t == Move(s, i, Lock(key)))
    || (pc.Fetch? && exists e | e in s.pool :: t == Move(s, i, Insert(pc.key, e)).(pool := s.pool - {e}))
    || (pc.Waiting? && Available(s, pc.e) && t == Taken(s, i, pc.key, pc.e))
    || (Can(c, s, i) && t == Goes(c, s, i))
  }

  predicate Available(s: State, e: Entry) { e < |s.tokens| && s.tokens[e] > 0 }

  // A send on the channel goes through.
  predicate HasRoom(c: Config, s: State, e: Entry) { e < |s.tokens| && s.tokens[e] < c.limit }

  function Taken(s: State, i: nat, key: Key, e: Entry): State
    requires i < |s.pcs| && Available(s, e)
  {
    Move(s, i, Running(key, e)).(tokens := s.tokens[e := s.tokens[e] - 1])
  }

  // The pool may let go of an entry at any time.
  ghost predicate PoolDrops(s: State, t: State) { exists e | e in s.pool :: t == s.(pool := s.pool - {e}) }

  ghost predicate Next(c: Config, s: State, t: State) {
    PoolDrops(s, t) || exists i :: 0 <= i < |s.pcs| && Step(c, s, i, t)
  }

  // ---- The invariant ----

  function HoldersOf(pcs: seq<PC>, e: Entry): nat { Count(pcs, (pc: PC) => HasToken(pc) && pc.e == e) }
  function RefsTo(pcs: seq<PC>, e: Entry): nat { Count(pcs, (pc: PC) => Refers(pc) && pc.e == e) }

  // Entries have a home each: a key, the pool, or one request.
  predicate Homes(s: State) {
    && (forall k, l | k in s.m && l in s.m && s.m[k] == s.m[l] :: k == l)
    && (forall k | k in s.m :: s.m[k] < |s.tokens| && s.m[k] !in s.pool)
    && (forall e | e in s.pool :: e < |s.tokens|)
    && (forall i | 0 <= i < |s.pcs| && Owns(s.pcs[i]) ::
          s.pcs[i].e < |s.tokens| && s.pcs[i].e !in s.pool && s.pcs[i].e !in s.m.Values)
    && forall i, j | 0 <= i < j < |s.pcs| && Owns(s.pcs[i]) && Owns(s.pcs[j]) :: s.pcs[i].e != s.pcs[j].e
  }

  // What requests in the middle of their work know about the map.
  predicate Views(s: State) {
    && (forall i | 0 <= i < |s.pcs| && Refers(s.pcs[i]) :: s.pcs[i].key in s.m && s.m[s.pcs[i].key] == s.pcs[i].e)
    && (forall i | 0 <= i < |s.pcs| && Absent(s.pcs[i]) :: s.pcs[i].key !in s.m)
  }

  predicate Exclusive(c: Config, s: State) {
    && (forall i | 0 <= i < |s.pcs| && InShard(s.pcs[i]) :: c.shard(s.pcs[i].key) in s.locked)
    && forall i, j | 0 <= i < j < |s.pcs| && InShard(s.pcs[i]) && InShard(s.pcs[j]) ::
         c.shard(s.pcs[i].key) != c.shard(s.pcs[j].key)
  }

  predicate TokensKept(c: Config, s: State) {
    forall e | 0 <= e < |s.tokens| :: s.tokens[e] + HoldersOf(s.pcs, e) == c.limit
  }

  predicate RefsKept(s: State) {
    |s.tokens| == |s.refs| && forall k | k in s.m :: s.m[k] < |s.refs| && s.refs[s.m[k]] == RefsTo(s.pcs, s.m[k]) > 0
  }

  predicate SizeKept(c: Config, s: State) {
    c.maxSize > 0 ==> s.size == |s.m.Keys| + Count(s.pcs, Counted) && |s.m.Keys| + Count(s.pcs, Approved) <= c.maxSize
  }

  predicate Inv(c: Config, s: State) {
    Homes(s) && Views(s) && Exclusive(c, s) && TokensKept(c, s) && RefsKept(s) && SizeKept(c, s)
  }

  lemma InitInv(c: Config, s: State)
    requires Init(c, s)
    ensures Inv(c, s)
  {
    CountNone(s.pcs, Counted);
    CountNone(s.pcs, Approved);
  }

  // ---- Homes ----

  // Nothing changes hands.
  lemma HomesSame(s: State, i: nat, pc: PC, t: State)
    requires Homes(s) && i < |s.pcs| && t.pcs == s.pcs[i := pc] && t.m == s.m && t.pool == s.pool
    requires |s.tokens| <= |t.tokens| && (Owns(pc) ==> Owns(s.pcs[i]) && pc.e == s.pcs[i].e)
    ensures Homes(t)
  {
  }

  // Request `i` comes to own an entry nobody else owned.
  lemma HomesOwned(s: State, i: nat, pc: PC, t: State)
    requires Homes(s) && i < |s.pcs| && t.pcs == s.pcs[i := pc] && Owns(pc) && |s.tokens| <= |t.tokens|
    requires t.m.Keys <= s.m.Keys && (forall k | k in t.m :: t.m[k] == s.m[k] && t.m[k] != pc.e)
    requires t.pool <= s.pool && pc.e !in t.pool && pc.e < |t.tokens|
    requires forall j | 0 <= j < |s.pcs| && j != i && Owns(s.pcs[j]) :: s.pcs[j].e != pc.e
    ensures Homes(t)
  {
    assert forall x | x in t.m.Values :: x in s.m.Values;
  }

  // Request `i` gives its entry to the map or to the pool.
  lemma HomesGiven(s: State, i: nat, pc: PC, t: State)
    requires Homes(s) && i < |s.pcs| && t.pcs == s.pcs[i := pc] && Owns(s.pcs[i]) && !Owns(pc) && t.tokens == s.tokens
    requires (s.pcs[i].Insert? && t.m == s.m[s.pcs[i].key := s.pcs[i].e] && t.pool == s.pool)
          || (t.m == s.m && t.pool == s.pool + {s.pcs[i].e})
    ensures Homes(t)
  {
    assert forall x | x in t.m.Values :: x in s.m.Values || x == s.pcs[i].e;
  }

  lemma HomesFetch(c: Config, s: State, i: nat, t: State)
    requires Homes(s) && i < |s.pcs| && s.pcs[i].Fetch? && Step(c, s, i, t) && |s.tokens| == |s.refs|
    ensures Homes(t)
  {
    HomesOwned(s, i, t.pcs[i], t);
  }

  lemma HomesDec(c: Config, s: State, i: nat, t: State)
    requires Homes(s) && Views(s) && i < |s.pcs| && s.pcs[i].Dec? && Step(c, s, i, t)
    ensures Homes(t)
  {
    RefersTo(s, i);
    if t.pcs[i].last { HomesOwned(s, i, t.pcs[i], t); } else { HomesSame(s, i, t.pcs[i], t); }
  }

  lemma HomesRest(c: Config, s: State, i: nat, t: State)
    requires Homes(s) && i < |s.pcs| && !s.pcs[i].Fetch? && !s.pcs[i].Dec? && Step(c, s, i, t)
    ensures Homes(t)
  {
    hide Homes;
    if s.pcs[i].Insert? || s.pcs[i].Put? {
      HomesGiven(s, i, t.pcs[i], t);
    } else {
      HomesSame(s, i, t.pcs[i], t);
    }
  }

  lemma RefersTo(s: State, i: nat)
    requires Views(s) && i < |s.pcs| && Refers(s.pcs[i])
    ensures s.pcs[i].key in s.m && s.m[s.pcs[i].key] == s.pcs[i].e
  {
  }

  // ---- Views ----

  lemma ViewsSame(s: State, i: nat, pc: PC, t: State)
    requires Views(s) && i < |s.pcs| && t.pcs == s.pcs[i := pc] && t.m == s.m
    requires Refers(pc) ==> pc.key in s.m && s.m[pc.key] == pc.e
    requires Absent(pc) ==> pc.key !in s.m
    ensures Views(t)
  {
  }

  // A key that no other request relies on changes.
  lemma ViewsOther(c: Config, s: State, i: nat, key: Key, pc: PC, t: State)
    requires Views(s) && Exclusive(c, s) && i < |s.pcs| && t.pcs == s.pcs[i := pc] && InShard(s.pcs[i]) && s.pcs[i].key == key
    requires forall k | k != key :: (k in s.m <==> k in t.m) && (k in s.m ==> s.m[k] == t.m[k])
    requires Refers(pc) ==> pc.key in t.m && t.m[pc.key] == pc.e
    requires !Absent(pc)
    requires key in t.m || forall j | 0 <= j < |s.pcs| && j != i && Refers(s.pcs[j]) :: s.pcs[j].key != key
    requires key in s.m ==> key !in t.m
    ensures Views(t)
  {
    forall j | 0 <= j < |t.pcs| && j != i && Absent(t.pcs[j]) ensures t.pcs[j].key !in t.m {
      assert InShard(s.pcs[j]);
      if i < j { assert s.pcs[j].key != key; } else { assert s.pcs[j].key != key; }
    }
  }

  // The last reference is the only one.
  lemma OnlyReference(s: State, i: nat, j: nat)
    requires Views(s) && RefsKept(s) && i < |s.pcs| && j < |s.pcs| && i != j && Refers(s.pcs[i]) && Refers(s.pcs[j])
    requires s.pcs[i].e < |s.refs| && s.refs[s.pcs[i].e] == 1
    ensures s.pcs[j].key != s.pcs[i].key
  {
    if s.pcs[j].key == s.pcs[i].key {
      var e := s.pcs[i].e;
      CountTwo(s.pcs, if i < j then i else j, if i < j then j else i, (pc: PC) => Refers(pc) && pc.e == e);
    }
  }

  lemma ViewsInsert(c: Config, s: State, i: nat, t: State)
    requires Views(s) && Exclusive(c, s) && i < |s.pcs| && s.pcs[i].Insert? && Step(c, s, i, t)
    ensures Views(t)
  {
    var pc := t.pcs[i];
    assert s.pcs[i].key !in s.m;
    hide Views, Exclusive;
    ViewsOther(c, s, i, pc.key, pc, t);
  }

  lemma ViewsDec(c: Config, s: State, i: nat, t: State)
    requires Views(s) && RefsKept(s) && Exclusive(c, s) && i < |s.pcs| && s.pcs[i].Dec? && Step(c, s, i, t)
    ensures Views(t)
  {
    var pc := t.pcs[i];
    RefersTo(s, i);
    hide Exclusive, Views;
    if pc.last {
      forall j | 0 <= j < |s.pcs| && j != i && Refers(s.pcs[j]) ensures s.pcs[j].key != pc.key { OnlyReference(s, i, j); }
      ViewsOther(c, s, i, pc.key, pc, t);
    } else {
      ViewsSame(s, i, pc, t);
    }
  }

  lemma ViewsRest(c: Config, s: State, i: nat, t: State)
    requires Views(s) && i < |s.pcs| && !s.pcs[i].Insert? && !s.pcs[i].Dec? && Step(c, s, i, t)
    ensures Views(t)
  {
    assert Refers(s.pcs[i]) ==> s.pcs[i].key in s.m && s.m[s.pcs[i].key] == s.pcs[i].e;
    assert Absent(s.pcs[i]) ==> s.pcs[i].key !in s.m;
    hide Views;
    ViewsSame(s, i, t.pcs[i], t);
  }

  // ---- Locks ----

  lemma ExclusiveSame(c: Config, s: State, i: nat, pc: PC, t: State)
    requires Exclusive(c, s) && i < |s.pcs| && t.pcs == s.pcs[i := pc] && t.locked == s.locked
    requires InShard(pc) ==> InShard(s.pcs[i]) && pc.key == s.pcs[i].key
    ensures Exclusive(c, t)
  {
  }

  lemma ExclusiveLock(c: Config, s: State, i: nat, key: Key, pc: PC, t: State)
    requires Exclusive(c, s) && i < |s.pcs| && c.shard(key) !in s.locked && t == Locked(c, s, i, key, pc)
    requires InShard(pc) && pc.key == key
    ensures Exclusive(c, t)
  {
  }

  lemma ExclusiveUnlock(c: Config, s: State, i: nat, key: Key, pc: PC, t: State)
    requires Exclusive(c, s) && i < |s.pcs| && t == Unlocked(c, s, i, key, pc)
    requires InShard(s.pcs[i]) && s.pcs[i].key == key && !InShard(pc)
    ensures Exclusive(c, t)
  {
  }

  lemma ExclusiveKept(c: Config, s: State, i: nat, t: State)
    requires Exclusive(c, s) && i < |s.pcs| && Step(c, s, i, t)
    ensures Exclusive(c, t)
  {
    hide Exclusive;
    var pc := t.pcs[i];
    if s.pcs[i].Lock? || s.pcs[i].Dropping? {
      ExclusiveLock(c, s, i, s.pcs[i].key, pc, t);
    } else if s.pcs[i].Full? || s.pcs[i].Got? || s.pcs[i].Unlock? {
      ExclusiveUnlock(c, s, i, s.pcs[i].key, if s.pcs[i].Full? then Idle else pc, t);
    } else {
      ExclusiveSame(c, s, i, pc, t);
    }
  }

  // ---- Tokens ----

  function One(b: bool): int { if b then 1 else 0 }

  predicate Holds(pc: PC, e: Entry) { HasToken(pc) && pc.e == e }

  // What leaves a channel is held, what is no longer held is back in it.
  lemma TokensMoved(c: Config, s: State, i: nat, pc: PC, t: State)
    requires TokensKept(c, s) && i < |s.pcs| && t.pcs == s.pcs[i := pc] && |t.tokens| == |s.tokens|
    requires forall e | 0 <= e < |s.tokens| :: t.tokens[e] == s.tokens[e] + One(Holds(s.pcs[i], e)) - One(Holds(pc, e))
    ensures TokensKept(c, t)
  {
    forall e | 0 <= e < |t.tokens| ensures t.tokens[e] + HoldersOf(t.pcs, e) == c.limit {
      CountUpdate(s.pcs, i, pc, (pc: PC) => HasToken(pc) && pc.e == e);
      assert HoldersOf(t.pcs, e) == HoldersOf(s.pcs, e) - One(Holds(s.pcs[i], e)) + One(Holds(pc, e));
    }
  }

  lemma TokensNew(c: Config, s: State, i: nat, pc: PC, t: State)
    requires Homes(s) && Views(s) && TokensKept(c, s) && i < |s.pcs| && t.pcs == s.pcs[i := pc]
    requires t.tokens == s.tokens + [c.limit] && !HasToken(s.pcs[i]) && !HasToken(pc)
    ensures TokensKept(c, t)
  {
    forall e | 0 <= e < |t.tokens| ensures t.tokens[e] + HoldersOf(t.pcs, e) == c.limit {
      CountUpdate(s.pcs, i, pc, (pc: PC) => HasToken(pc) && pc.e == e);
      if e == |s.tokens| { NobodyHolds(s, e); }
    }
  }

  lemma TokensFetch(c: Config, s: State, i: nat, t: State)
    requires Homes(s) && Views(s) && TokensKept(c, s) && i < |s.pcs| && s.pcs[i].Fetch? && Step(c, s, i, t)
    ensures TokensKept(c, t)
  {
    hide Homes, Views, TokensKept;
    if |t.tokens| > |s.tokens| {
      TokensNew(c, s, i, t.pcs[i], t);
    } else {
      TokensMoved(c, s, i, t.pcs[i], t);
    }
  }

  lemma TokensRest(c: Config, s: State, i: nat, t: State)
    requires TokensKept(c, s) && i < |s.pcs| && !s.pcs[i].Fetch? && Step(c, s, i, t)
    ensures TokensKept(c, t)
  {
    hide TokensKept;
    if Hands(s.pcs[i]) { TokenHanded(c, s, i, t); } else { TokenStays(c, s, i, t); }
    hide *;
    TokensMoved(c, s, i, t.pcs[i], t);
  }

  // The steps that take a token or give one back.
  predicate Hands(pc: PC) { pc.Taking? || pc.Waiting? || pc.Returning? }

  lemma TokenHanded(c: Config, s: State, i: nat, t: State)
    requires i < |s.pcs| && Hands(s.pcs[i]) && Step(c, s, i, t)
    ensures t.pcs == s.pcs[i := t.pcs[i]] && |t.tokens| == |s.tokens|
    ensures forall e | 0 <= e < |s.tokens| :: t.tokens[e] == s.tokens[e] + One(Holds(s.pcs[i], e)) - One(Holds(t.pcs[i], e))
  {
  }

  lemma TokenStays(c: Config, s: State, i: nat, t: State)
    requires i < |s.pcs| && !Hands(s.pcs[i]) && !s.pcs[i].Fetch? && Step(c, s, i, t)
    ensures t.pcs == s.pcs[i := t.pcs[i]] && |t.tokens| == |s.tokens|
    ensures forall e | 0 <= e < |s.tokens| :: t.tokens[e] == s.tokens[e] + One(Holds(s.pcs[i], e)) - One(Holds(t.pcs[i], e))
  {
  }

  // An entry not made yet has no holders, nor has one that is in no map.
  lemma NobodyHolds(s: State, e: Entry)
    requires Homes(s) && Views(s) && e !in s.m.Values
    ensures HoldersOf(s.pcs, e) == 0 && RefsTo(s.pcs, e) == 0
  {
    forall j | 0 <= j < |s.pcs| && Refers(s.pcs[j]) ensures s.pcs[j].e != e {
      assert s.m[s.pcs[j].key] in s.m.Values;
    }
    CountNone(s.pcs, (pc: PC) => HasToken(pc) && pc.e == e);
    CountNone(s.pcs, (pc: PC) => Refers(pc) && pc.e == e);
  }

  // ---- References ----

  predicate Uses(pc: PC, e: Entry) { Refers(pc) && pc.e == e }

  // An entry's count changes with the requests that refer to it.
  lemma RefsMoved(s: State, i: nat, pc: PC, t: State)
    requires RefsKept(s) && i < |s.pcs| && t.pcs == s.pcs[i := pc] && |t.tokens| == |t.refs| >= |s.refs|
    requires t.m.Keys <= s.m.Keys && forall k | k in t.m :: t.m[k] == s.m[k]
    requires forall k | k in t.m ::
               t.refs[s.m[k]] == s.refs[s.m[k]] - One(Uses(s.pcs[i], s.m[k])) + One(Uses(pc, s.m[k])) > 0
    ensures RefsKept(t)
  {
    forall k | k in t.m ensures t.m[k] < |t.refs| && t.refs[t.m[k]] == RefsTo(t.pcs, t.m[k]) > 0 {
      var e := t.m[k];
      CountUpdate(s.pcs, i, pc, (pc: PC) => Refers(pc) && pc.e == e);
      assert RefsTo(t.pcs, e) == RefsTo(s.pcs, e) - One(Uses(s.pcs[i], e)) + One(Uses(pc, e));
    }
  }

  lemma RefsInsert(c: Config, s: State, i: nat, t: State)
    requires Homes(s) && Views(s) && RefsKept(s) && i < |s.pcs| && s.pcs[i].Insert? && Step(c, s, i, t)
    ensures RefsKept(t)
  {
    var pc := t.pcs[i];
    NobodyHolds(s, pc.e);
    forall k | k in t.m ensures t.m[k] < |t.refs| && t.refs[t.m[k]] == RefsTo(t.pcs, t.m[k]) > 0 {
      var e := t.m[k];
      if k != pc.key { assert e in s.m.Values; }
      CountUpdate(s.pcs, i, pc, (pc: PC) => Refers(pc) && pc.e == e);
    }
  }

  lemma RefsDec(c: Config, s: State, i: nat, t: State)
    requires Homes(s) && Views(s) && RefsKept(s) && i < |s.pcs| && s.pcs[i].Dec? && Step(c, s, i, t)
    ensures RefsKept(t)
  {
    RefersTo(s, i);
    var e := s.pcs[i].e;
    CountSome(s.pcs, i, (pc: PC) => Refers(pc) && pc.e == e);
    RefsMoved(s, i, t.pcs[i], t);
  }

  lemma RefsLook(c: Config, s: State, i: nat, t: State)
    requires Homes(s) && RefsKept(s) && i < |s.pcs| && s.pcs[i].Look? && Step(c, s, i, t)
    ensures RefsKept(t)
  {
    hide RefsTo;
    RefsMoved(s, i, t.pcs[i], t);
  }

  lemma RefsRest(c: Config, s: State, i: nat, t: State)
    requires RefsKept(s) && i < |s.pcs| && !s.pcs[i].Insert? && !s.pcs[i].Dec? && !s.pcs[i].Look? && Step(c, s, i, t)
    ensures RefsKept(t)
  {
    assert |s.tokens| == |s.refs| && forall k | k in s.m :: s.m[k] < |s.refs| && s.refs[s.m[k]] > 0;
    hide RefsKept;
    RefsStay(c, s, i, t);
    hide *;
    RefsMoved(s, i, t.pcs[i], t);
  }

  // The other steps change neither the counts nor who refers to what.
  lemma RefsStay(c: Config, s: State, i: nat, t: State)
    requires i < |s.pcs| && !s.pcs[i].Insert? && !s.pcs[i].Dec? && !s.pcs[i].Look? && Step(c, s, i, t)
    requires |s.tokens| == |s.refs| && forall k | k in s.m :: s.m[k] < |s.refs|
    ensures t.pcs == s.pcs[i := t.pcs[i]] && t.m == s.m && |t.tokens| == |t.refs| >= |s.refs|
    ensures forall k | k in t.m ::
              t.refs[s.m[k]] == s.refs[s.m[k]] && One(Uses(s.pcs[i], s.m[k])) == One(Uses(t.pcs[i], s.m[k]))
  {
  }

  // ---- The counter ----

  lemma SizeMoved(c: Config, s: State, i: nat, pc: PC, t: State, keys: int)
    requires SizeKept(c, s) && i < |s.pcs| && t.pcs == s.pcs[i := pc] && |t.m.Keys| == |s.m.Keys| + keys
    requires c.maxSize > 0 ==>
               && t.size == s.size + keys - One(Counted(s.pcs[i])) + One(Counted(pc))
               && (t.size <= c.maxSize || keys - One(Approved(s.pcs[i])) + One(Approved(pc)) <= 0)
    ensures SizeKept(c, t)
  {
    CountUpdate(s.pcs, i, pc, Counted);
    CountUpdate(s.pcs, i, pc, Approved);
    CountWithin(t.pcs, Approved, Counted);
  }

  lemma SizeInsert(c: Config, s: State, i: nat, t: State)
    requires Views(s) && SizeKept(c, s) && i < |s.pcs| && s.pcs[i].Insert? && Step(c, s, i, t)
    ensures SizeKept(c, t)
  {
    assert s.pcs[i].key !in s.m;
    assert t.m.Keys == s.m.Keys + {t.pcs[i].key};
    hide Views, SizeKept;
    SizeMoved(c, s, i, t.pcs[i], t, 1);
  }

  lemma SizeDec(c: Config, s: State, i: nat, t: State)
    requires Views(s) && SizeKept(c, s) && i < |s.pcs| && s.pcs[i].Dec? && Step(c, s, i, t)
    ensures SizeKept(c, t)
  {
    RefersTo(s, i);
    var last := t.pcs[i].last;
    assert t.m.Keys == if last then s.m.Keys - {t.pcs[i].key} else s.m.Keys;
    hide Views, SizeKept;
    SizeMoved(c, s, i, t.pcs[i], t, if last then -1 else 0);
  }

  lemma SizeRest(c: Config, s: State, i: nat, t: State)
    requires SizeKept(c, s) && i < |s.pcs| && !s.pcs[i].Insert? && !s.pcs[i].Dec? && Step(c, s, i, t)
    ensures SizeKept(c, t)
  {
    hide SizeKept;
    if Reserves(s.pcs[i]) { SizeReserved(c, s, i, t); } else { SizeStays(c, s, i, t); }
    hide *;
    SizeMoved(c, s, i, t.pcs[i], t, 0);
  }

  // The steps that count a key in advance, or take it back.
  predicate Reserves(pc: PC) { pc.Reserve? || pc.Rollback? || pc.Shrink? }

  lemma SizeReserved(c: Config, s: State, i: nat, t: State)
    requires i < |s.pcs| && Reserves(s.pcs[i]) && Step(c, s, i, t)
    ensures t.pcs == s.pcs[i := t.pcs[i]] && t.m == s.m
    ensures c.maxSize > 0 ==>
              && t.size == s.size - One(Counted(s.pcs[i])) + One(Counted(t.pcs[i]))
              && (t.size <= c.maxSize || One(Approved(t.pcs[i])) <= One(Approved(s.pcs[i])))
  {
  }

  lemma SizeStays(c: Config, s: State, i: nat, t: State)
    requires i < |s.pcs| && !Reserves(s.pcs[i]) && !s.pcs[i].Insert? && !s.pcs[i].Dec? && Step(c, s, i, t)
    ensures t.pcs == s.pcs[i := t.pcs[i]] && t.m == s.m
    ensures c.maxSize > 0 ==>
              && t.size == s.size - One(Counted(s.pcs[i])) + One(Counted(t.pcs[i]))
              && One(Approved(t.pcs[i])) <= One(Approved(s.pcs[i]))
  {
  }

  lemma StepInv(c: Config, s: State, i: nat, t: State)
    requires Inv(c, s) && i < |s.pcs| && Step(c, s, i, t)
    ensures Inv(c, t)
  {
    hide Homes, Views, Exclusive, TokensKept, RefsKept, SizeKept, Step;
    ExclusiveKept(c, s, i, t);
    if s.pcs[i].Insert? {
      HomesRest(c, s, i, t);
      TokensRest(c, s, i, t);
      ViewsInsert(c, s, i, t);
      RefsInsert(c, s, i, t);
      SizeInsert(c, s, i, t);
    } else if s.pcs[i].Dec? {
      HomesDec(c, s, i, t);
      TokensRest(c, s, i, t);
      ViewsDec(c, s, i, t);
      RefsDec(c, s, i, t);
      SizeDec(c, s, i, t);
    } else {
      if s.pcs[i].Fetch? {
        assert |s.tokens| == |s.refs| by { SameLength(s); }
        HomesFetch(c, s, i, t);
        TokensFetch(c, s, i, t);
      } else {
        HomesRest(c, s, i, t);
        TokensRest(c, s, i, t);
      }
      if s.pcs[i].Look? { RefsLook(c, s, i, t); } else { RefsRest(c, s, i, t); }
      ViewsRest(c, s, i, t);
      SizeRest(c, s, i, t);
    }
  }

  lemma SameLength(s: State)
    requires RefsKept(s)
    ensures |s.tokens| == |s.refs|
  {
  }

  lemma DropInv(c: Config, s: State, t: State)
    requires Inv(c, s) && PoolDrops(s, t)
    ensures Inv(c, t)
  {
  }

  // ---- Every run ----

  ghost predicate Run(c: Config, run: seq<State>) {
    && run != [] && Init(c, run[0])
    && forall k | 0 < k < |run| :: Next(c, run[k - 1], run[k])
  }

  lemma {:induction false} RunInv(c: Config, run: seq<State>, k: nat)
    requires Run(c, run) && k < |run|
    ensures Inv(c, run[k])
  {
    if k == 0 {
      InitInv(c, run[0]);
    } else {
      RunInv(c, run, k - 1);
      hide Inv, Step;
      if PoolDrops(run[k - 1], run[k]) {
        DropInv(c, run[k - 1], run[k]);
      } else {
        var i :| 0 <= i < |run[k - 1].pcs| && Step(c, run[k - 1], i, run[k]);
        StepInv(c, run[k - 1], i, run[k]);
      }
    }
  }

  // In every state of every run: no token is lost or made up; an entry in the
  // map counts exactly the requests that use it; every entry is mapped under
  // one key at most, or pooled, never both, and is full when pooled; and no
  // more keys live than allowed.
  lemma TableHolds(c: Config, run: seq<State>, k: nat)
    requires Run(c, run) && k < |run|
    ensures var s := run[k];
            && |s.tokens| == |s.refs|
            && (forall e | 0 <= e < |s.tokens| :: s.tokens[e] + HoldersOf(s.pcs, e) == c.limit)
            && (forall e | e in s.pool :: e < |s.tokens| && s.tokens[e] == c.limit && e !in s.m.Values)
            && (forall x, y | x in s.m && y in s.m && s.m[x] == s.m[y] :: x == y)
            && (forall x | x in s.m :: s.m[x] < |s.refs| && s.refs[s.m[x]] == RefsTo(s.pcs, s.m[x]) > 0)
            && (c.maxSize > 0 ==> |s.m| <= c.maxSize)
  {
    RunInv(c, run, k);
    var s := run[k];
    forall e | e in s.pool ensures e < |s.tokens| && s.tokens[e] == c.limit && e !in s.m.Values {
      NobodyHolds(s, e);
    }
    assert |s.m| == |s.m.Keys|;
  }

  // No more requests than the limit run for one key at a time.
  lemma LimitPerKey(c: Config, run: seq<State>, k: nat, key: Key)
    requires Run(c, run) && k < |run|
    ensures Count(run[k].pcs, (pc: PC) => pc.Running? && pc.key == key) <= c.limit
  {
    RunInv(c, run, k);
    var s := run[k];
    if key in s.m {
      var e := s.m[key];
      forall i | 0 <= i < |s.pcs| && s.pcs[i].Running? && s.pcs[i].key == key ensures s.pcs[i].e == e { RefersTo(s, i); }
      CountWithin(s.pcs, (pc: PC) => pc.Running? && pc.key == key, (pc: PC) => HasToken(pc) && pc.e == e);
      assert s.tokens[e] + HoldersOf(s.pcs, e) == c.limit;
    } else {
      forall i | 0 <= i < |s.pcs| && s.pcs[i].Running? ensures s.pcs[i].key != key { RefersTo(s, i); }
      CountNone(s.pcs, (pc: PC) => pc.Running? && pc.key == key);
    }
  }

  // Sending a token back never blocks.
  lemma ReturnNeverBlocks(c: Config, run: seq<State>, k: nat, i: nat)
    requires Run(c, run) && k < |run| && i < |run[k].pcs| && run[k].pcs[i].Returning?
    ensures HasRoom(c, run[k], run[k].pcs[i].e) && exists t :: Step(c, run[k], i, t)
  {
    RunInv(c, run, k);
    var s := run[k];
    var e := s.pcs[i].e;
    RefersTo(s, i);
    CountSome(s.pcs, i, (pc: PC) => HasToken(pc) && pc.e == e);
    assert s.tokens[e] + HoldersOf(s.pcs, e) == c.limit;
    assert Step(c, s, i, Goes(c, s, i));
  }
}
