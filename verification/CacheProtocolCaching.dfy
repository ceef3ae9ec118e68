/** What the calls of `getOrSet` get over whole runs: cached values, idle regions in order, one answer each. */
module CacheProtocolCaching {
  import opened Arith
  import opened Lists
  import opened Tape
  import opened CacheRegions
  import opened CacheAllocate
  import opened CacheTheorems
  import opened CacheEviction
  import opened CacheAccounting
  import opened CacheHolders
  import opened CacheProtocol
  import opened CacheProtocolProof
  import opened CacheProtocolTheorems

  // ---------- The cache caches ----------

  /** After a successful `initialize` the key leads to the region that was filled. */
  lemma InitializePublishes(s: State, t: Name, h: Name)
    requires Inv(s) && Enabled(s, Initialize(t, true, h))
    ensures var s' := Apply(s, Initialize(t, true, h)).0;
            && s.calls[t].key in s'.cache.keys && s'.cache.keys[s.calls[t].key] == s.calls[t].stage.region
            && h in s'.holders && s'.holders[h] == s.calls[t].stage.region
  {
    hide Valid, Counted, Owned, Valued, HeldBytes, Drift, Users, Hold, FreeRegion, Filled;
    FillingCall(s, t);
    HoldKeys(s.cache, s.calls[t].stage.region);
  }

  lemma FillsRegion(s: State, t: Name, h: Name)
    requires Inv(s) && Enabled(s, Initialize(t, true, h))
    ensures t in s.calls && s.calls[t].stage.Filling?
  {
    hide Inv;
  }

  lemma HoldKeys(c: Cache<Name>, r: Name)
    requires r in c.meta
    ensures Hold(c, r).keys == c.keys
  {
  }

  /** The step evicts region `r`. */
  ghost predicate Evicts(s: State, step: Step, r: Name)
    requires Inv(s) && Enabled(s, step)
  {
    step.AllocateRegion? && r in s.cache.lru && r !in Apply(s, step).0.cache.lru
  }

  lemma AllocateKeys(s: State, step: Step)
    requires Inv(s) && Enabled(s, step) && step.AllocateRegion?
    ensures Thinned(s.cache.lru, Apply(s, step).0.cache.lru) && KeysLeft(s.cache, Apply(s, step).0.cache)
  {
    hide Valid, Counted, Registered, Called, Filled, Owned, Valued, HeldBytes, Drift, Allocate, Names, CanMap, Thinned,
         DoBegin, DoLockToken, DoGetSize, DoInitialize, DoLeave, DoDestroy;
    AllocateOrder(s.cache, s.calls[step.thread].stage.size, step.mapping, step.whole, step.novel);
  }

  lemma InitializeKeys(s: State, t: Name, ok: bool, h: Name, key: Key)
    requires Inv(s) && Enabled(s, Initialize(t, ok, h)) && key in s.cache.keys
    ensures var s' := DoInitialize(s, t, ok, h).0; key in s'.cache.keys && s'.cache.keys[key] == s.cache.keys[key]
  {
    hide Inv, FreeRegion, Hold;
    FillingCall(s, t);
    HoldKeys(s.cache, s.calls[t].stage.region);
  }

  lemma OtherKeys(s: State, step: Step)
    requires Inv(s) && Enabled(s, step) && !step.AllocateRegion? && !step.Initialize?
    ensures Apply(s, step).0.cache.keys == s.cache.keys
  {
    hide Inv, DoAllocate, DoInitialize;
  }

  /** A cached key goes on leading to its region, unless the step evicts the region. */
  lemma KeyStays(s: State, step: Step, key: Key)
    requires Inv(s) && Enabled(s, step) && key in s.cache.keys
    ensures var r, s' := s.cache.keys[key], Apply(s, step).0;
            (key in s'.cache.keys && s'.cache.keys[key] == r) <==> !Evicts(s, step, r)
  {
    hide Inv, Thinned, DoAllocate, DoInitialize, DoBegin, DoLockToken, DoGetSize, DoLeave, DoDestroy;
    if step.AllocateRegion? {
      AllocateKeys(s, step);
    } else if step.Initialize? {
      InitializeKeys(s, step.thread, step.ok, step.holder, key);
    } else {
      OtherKeys(s, step);
    }
  }

  /** No step of the run evicts `r`. */
  ghost predicate NeverEvicts(s: State, steps: seq<Step>, r: Name)
    requires Inv(s) && IsRun(s, steps)
    decreases |steps|
  {
    steps != [] ==>
      && !Evicts(s, steps[0], r)
      && (StepKeepsInv(s, steps[0]); NeverEvicts(Apply(s, steps[0]).0, steps[1..], r))
  }

  lemma {:induction false} CachedUntilEvicted(s: State, steps: seq<Step>, key: Key)
    requires Inv(s) && IsRun(s, steps) && key in s.cache.keys && NeverEvicts(s, steps, s.cache.keys[key])
    ensures var s' := After(s, steps); key in s'.cache.keys && s'.cache.keys[key] == s.cache.keys[key]
    decreases |steps|
  {
    hide Inv, Enabled, Apply, Evicts;
    if steps != [] {
      StepKeepsInv(s, steps[0]);
      KeyStays(s, steps[0], key);
      CachedUntilEvicted(Apply(s, steps[0]).0, steps[1..], key);
    }
  }

  lemma HeldNotIdle(s: State, h: Name)
    requires Inv(s) && h in s.holders
    ensures s.holders[h] !in s.cache.lru
  {
    HolderRegion(s, h);
    hide Counted, Registered, Called, Filled, Owned, Valued, HeldBytes, Drift;
  }

  /** A region is not evicted while it is held. */
  lemma {:induction false} HeldNeverEvicted(s: State, steps: seq<Step>, h: Name)
    requires Inv(s) && IsRun(s, steps) && h in s.holders && h in After(s, steps).holders
    ensures NeverEvicts(s, steps, s.holders[h])
    decreases |steps|
  {
    hide Inv, Enabled, Apply;
    if steps != [] {
      StepKeepsInv(s, steps[0]);
      HeldNotIdle(s, h);
      HolderUsed(s, h);
      StepNames(s, steps[0]);
      if h !in Apply(s, steps[0]).0.holders { GoneForGood(Apply(s, steps[0]).0, steps[1..], h); }
      HeldStable(s, steps[0], h);
      HeldNeverEvicted(Apply(s, steps[0]).0, steps[1..], h);
    }
  }

  /** A cached key is found: the call returns at once with a new holder of its region, and takes no token. */
  lemma CachedHit(s: State, t: Name, key: Key, token: Name, h: Name)
    requires Inv(s) && Enabled(s, Begin(t, key, token, h)) && key in s.cache.keys
    ensures var (s', event) := Apply(s, Begin(t, key, token, h));
            && event == Returned(key, Some(h)) && h in s'.holders && s'.holders[h] == s.cache.keys[key]
            && s'.calls == s.calls && s'.tokens == s.tokens && s'.insertTokens == s.insertTokens
  {
    hide Inv, Hold, DoLockToken, DoGetSize, DoAllocate, DoInitialize, DoLeave, DoDestroy;
  }

  /** So a value is computed once: after a successful `initialize`, until the region is evicted, every call
      with the key returns a holder of that region at once. */
  lemma ComputedOnce(s: State, t: Name, h: Name, steps: seq<Step>, u: Name, token: Name, h': Name)
    requires Inv(s) && Enabled(s, Initialize(t, true, h)) && Inv(Apply(s, Initialize(t, true, h)).0)
    requires var s1 := Apply(s, Initialize(t, true, h)).0;
             && IsRun(s1, steps) && NeverEvicts(s1, steps, s.calls[t].stage.region)
             && Enabled(After(s1, steps), Begin(u, s.calls[t].key, token, h'))
    ensures var s2 := After(Apply(s, Initialize(t, true, h)).0, steps);
            var (s', event) := Apply(s2, Begin(u, s.calls[t].key, token, h'));
            && event == Returned(s.calls[t].key, Some(h')) && h' in s'.holders && s'.holders[h'] == s.calls[t].stage.region
            && s'.calls == s2.calls && s'.insertTokens == s2.insertTokens
  {
    hide Inv, Enabled, Apply, After, IsRun, NeverEvicts;
    FillsRegion(s, t, h);
    InitializePublishes(s, t, h);
    var s1 := Apply(s, Initialize(t, true, h)).0;
    CachedUntilEvicted(s1, steps, s.calls[t].key);
    CachedHit(After(s1, steps), u, s.calls[t].key, token, h');
  }

  // ---------- Idle regions are in the order in which they were released ----------

  /** `h` is the only holder of region `r`. */
  ghost predicate OnlyHolder(s: State, h: Name, r: Name) {
    h in s.holders && s.holders[h] == r && forall x | x in s.holders && s.holders[x] == r :: x == h
  }

  lemma OneHolder(s: State, h: Name)
    requires Inv(s) && h in s.holders
    ensures s.holders[h] in s.cache.meta && (s.cache.meta[s.holders[h]].refcount == 1 <==> OnlyHolder(s, h, s.holders[h]))
  {
    HolderRegion(s, h);
    hide Valid, Registered, Called, Filled, Owned, Valued, HeldBytes, Drift;
    var r := s.holders[h];
    var hs := HoldersOf(s.holders, r);
    assert h in hs;
    if OnlyHolder(s, h, r) {
      assert hs == {h};
    } else {
      var x :| x in s.holders && s.holders[x] == r && x != h;
      assert {x, h} <= hs && |{x, h}| == 2;
      SubsetSmaller({x, h}, hs);
    }
  }

  lemma SubsetSmaller(a: set<Name>, b: set<Name>)
    requires a <= b
    ensures |a| <= |b|
  {
    assert b == a + (b - a);
  }

  /** What a step does to the list of idle regions: some may leave it; one joins it, at the end, exactly when
      its only holder is destroyed. */
  ghost predicate LruMoves(s: State, step: Step, lru': seq<Name>) {
    if step.DestroyHolder? && step.holder in s.holders && OnlyHolder(s, step.holder, s.holders[step.holder])
    then lru' == s.cache.lru + [s.holders[step.holder]]
    else Thinned(s.cache.lru, lru')
  }

  lemma DestroyLru(s: State, h: Name)
    requires Inv(s) && Enabled(s, DestroyHolder(h))
    ensures LruMoves(s, DestroyHolder(h), Apply(s, DestroyHolder(h)).0.cache.lru)
  {
    hide Inv, Thinned, OnlyHolder, DoBegin, DoLockToken, DoGetSize, DoAllocate, DoInitialize, DoLeave;
    HolderDestroyable(s, h);
    OneHolder(s, h);
    SameThins(s.cache.lru);
  }

  lemma HoldLru(c: Cache<Name>, r: Name)
    requires Indexed(c) && r in c.meta
    ensures Thinned(c.lru, Hold(c, r).lru)
  {
    hide ListsAll, ListsFree, Sorted, States, Keyed, Thinned, Without;
    WithoutThins(c.lru, r);
    SameThins(c.lru);
  }

  lemma BeginLru(s: State, t: Name, key: Key, token: Name, h: Name)
    requires Inv(s) && Enabled(s, Begin(t, key, token, h))
    ensures Thinned(s.cache.lru, DoBegin(s, t, key, token, h).0.cache.lru)
  {
    SameThins(s.cache.lru);
    if key in s.cache.keys {
      KeyedRegion(s.cache, key);
      HoldLru(s.cache, s.cache.keys[key]);
    }
    hide Inv, Thinned;
  }

  lemma InitializeLru(s: State, t: Name, ok: bool, h: Name)
    requires Inv(s) && Enabled(s, Initialize(t, ok, h))
    ensures Thinned(s.cache.lru, DoInitialize(s, t, ok, h).0.cache.lru)
  {
    InvValid(s);
    hide Inv, Valid, Thinned, FreeRegion, Hold;
    FillingCall(s, t);
    SameThins(s.cache.lru);
    HoldLru(s.cache, s.calls[t].stage.region);
  }

  lemma StepLru(s: State, step: Step)
    requires Inv(s) && Enabled(s, step)
    ensures LruMoves(s, step, Apply(s, step).0.cache.lru)
  {
    hide Inv, Thinned, DoBegin, DoAllocate, DoInitialize, DoDestroy, OnlyHolder;
    SameThins(s.cache.lru);
    match step {
      case Begin(t, key, token, h) => BeginLru(s, t, key, token, h);
      case AllocateRegion(t, _, _, _) => AllocateKeys(s, step);
      case Initialize(t, ok, h) => InitializeLru(s, t, ok, h);
      case DestroyHolder(h) => DestroyLru(s, h);
      case _ =>
    }
  }

  /** When each idle region joined the list last. */
  ghost function Stamp(lru: seq<Name>, lru': seq<Name>, now: nat, m: map<Name, nat>): map<Name, nat> {
    map x | x in lru' :: if x in lru && x in m then m[x] else now
  }

  ghost function Stamps(s: State, steps: seq<Step>, now: nat, m: map<Name, nat>): map<Name, nat>
    requires Inv(s) && IsRun(s, steps)
    decreases |steps|
  {
    if steps == [] then m
    else
      StepKeepsInv(s, steps[0]);
      var s' := Apply(s, steps[0]).0;
      Stamps(s', steps[1..], now + 1, Stamp(s.cache.lru, s'.cache.lru, now, m))
  }

  /** Earlier in the list means released earlier. */
  ghost predicate ByRelease(lru: seq<Name>, m: map<Name, nat>, now: nat) {
    && (forall x | x in lru :: x in m && m[x] < now)
    && (forall x, y | x in lru && y in lru && Before(lru, x, y) :: m[x] < m[y])
  }

  lemma StampThinned(lru: seq<Name>, lru': seq<Name>, now: nat, m: map<Name, nat>)
    requires ByRelease(lru, m, now) && Thinned(lru, lru')
    ensures ByRelease(lru', Stamp(lru, lru', now, m), now + 1)
  {
  }

  lemma StampJoined(lru: seq<Name>, r: Name, now: nat, m: map<Name, nat>)
    requires ByRelease(lru, m, now) && Distinct(lru + [r]) && r !in lru
    ensures ByRelease(lru + [r], Stamp(lru, lru + [r], now, m), now + 1)
  {
    var lru' := lru + [r];
    assert lru'[|lru|] == r;
    forall x | x in lru ensures IndexOf(lru', x) == IndexOf(lru, x) {
      assert lru'[IndexOf(lru, x)] == x;
    }
  }

  lemma LruDistinct(s: State)
    requires Inv(s)
    ensures Distinct(s.cache.lru)
  {
    hide Counted, Registered, Called, Filled, Owned, Valued, HeldBytes, Drift;
  }

  lemma {:induction false} StampsKept(s: State, steps: seq<Step>, now: nat, m: map<Name, nat>)
    requires Inv(s) && IsRun(s, steps) && ByRelease(s.cache.lru, m, now)
    ensures ByRelease(After(s, steps).cache.lru, Stamps(s, steps, now, m), now + |steps|)
    decreases |steps|
  {
    hide Inv, Enabled, Apply, ByRelease, Thinned, Distinct, Stamp;
    if steps != [] {
      StepKeepsInv(s, steps[0]);
      var s' := Apply(s, steps[0]).0;
      StepLru(s, steps[0]);
      LruDistinct(s');
      if LruMoves(s, steps[0], s'.cache.lru) && !Thinned(s.cache.lru, s'.cache.lru) {
        HeldNotIdle(s, steps[0].holder);
        StampJoined(s.cache.lru, s.holders[steps[0].holder], now, m);
      } else {
        StampThinned(s.cache.lru, s'.cache.lru, now, m);
      }
      StampsKept(s', steps[1..], now + 1, Stamp(s.cache.lru, s'.cache.lru, now, m));
    }
  }

  /** Over every run of a new cache the idle regions are listed in the order in which their last holders
      were destroyed. The first of them, where eviction begins, has been idle longest. */
  lemma IdleInOrder(maxTotal: nat, pageSize: nat, steps: seq<Step>)
    requires Inv(Empty(maxTotal, pageSize)) && IsRun(Empty(maxTotal, pageSize), steps)
    ensures var s0 := Empty(maxTotal, pageSize);
            ByRelease(After(s0, steps).cache.lru, Stamps(s0, steps, 0, map[]), |steps|)
  {
    hide Inv, After, IsRun, Stamps;
    StampsKept(Empty(maxTotal, pageSize), steps, 0, map[]);
  }

  // ---------- The size that was asked for ----------

  /** What `get_size` last returned in each thread. */
  ghost function Asked(m: map<Name, nat>, step: Step): map<Name, nat> {
    if step.GetSize? && step.result.Some? then m[step.thread := step.result.value] else m
  }

  ghost function AskedIn(steps: seq<Step>, m: map<Name, nat>): map<Name, nat>
    decreases |steps|
  {
    if steps == [] then m else AskedIn(steps[1..], Asked(m, steps[0]))
  }

  /** A call allocates what its `get_size` returned, and fills a region of that size, rounded up to 16. */
  ghost predicate AsAsked(calls: map<Name, Call>, meta: map<Name, Meta>, m: map<Name, nat>) {
    forall t | t in calls ::
      && (calls[t].stage.Allocating? ==> t in m && m[t] == calls[t].stage.size)
      && (calls[t].stage.Filling? ==>
            t in m && calls[t].stage.region in meta && LeastMultiple(meta[calls[t].stage.region].size, m[t], 16))
  }

  // ---------- How calls move ----------

  /** The thread of a step of a call. */
  ghost predicate StepOf(step: Step, t: Name) {
    !step.CopyPtr? && !step.DropPtr? && !step.DestroyHolder? && step.thread == t
  }

  ghost predicate AtStage(calls: map<Name, Call>, t: Name, stage: Stage) {
    t in calls && calls[t].stage == stage
  }

  /** An answer, for the key of the call, or the next stage. */
  ghost predicate Answered(calls: map<Name, Call>, t: Name, calls': map<Name, Call>, event: Event, next: Stage) {
    && t in calls && !calls[t].stage.Leaving? && AtStage(calls', t, if event.Internal? then next else Leaving)
    && (!event.Internal? ==> event.key == calls[t].key)
  }

  /** A step moves the call of its own thread only: towards the next thing to do, or, with an answer, to its end. */
  ghost predicate CallMoves(calls: map<Name, Call>, step: Step, calls': map<Name, Call>, event: Event) {
    && (forall u | u in calls && !StepOf(step, u) :: AtStage(calls', u, calls[u].stage))
    && (forall u | u in calls' && !StepOf(step, u) :: u in calls)
    && match step
       case Begin(t, key, _, _) =>
         t !in calls && if event.Internal? then AtStage(calls', t, Waiting) else t !in calls' && event.key == key
       case LockToken(t) => Answered(calls, t, calls', event, Sizing)
       case GetSize(t, result) =>
         && (event.Internal? <==> result.Some?)
         && Answered(calls, t, calls', event, if result.Some? then Allocating(result.value) else Leaving)
       case AllocateRegion(t, _, _, _) =>
         && t in calls && calls[t].stage.Allocating? && t in calls' && (calls'[t].stage.Filling? || calls'[t].stage.Leaving?)
         && Answered(calls, t, calls', event, calls'[t].stage) && (event.Internal? ==> calls'[t].stage.Filling?)
       case Initialize(t, _, _) => Answered(calls, t, calls', event, Leaving) && !event.Internal?
       case Leave(t) => AtStage(calls, t, Leaving) && t !in calls' && event.Internal?
       case _ => event.Internal?
  }

  /** Where a call has to be for its next step. */
  lemma EnabledAt(s: State, step: Step)
    requires Inv(s) && Enabled(s, step)
    ensures match step
            case Begin(t, _, _, _) => t !in s.calls
            case LockToken(t) => AtStage(s.calls, t, Waiting) && s.calls[t].token in s.tokens
            case GetSize(t, _) => AtStage(s.calls, t, Sizing) && s.calls[t].token in s.tokens
            case AllocateRegion(t, _, _, _) => t in s.calls && s.calls[t].stage.Allocating? && s.calls[t].token in s.tokens
            case Initialize(t, _, _) => t in s.calls && s.calls[t].stage.Filling? && s.calls[t].token in s.tokens
            case Leave(t) => AtStage(s.calls, t, Leaving) && s.calls[t].token in s.tokens
            case _ => true
  {
    if step.LockToken? || step.GetSize? || step.AllocateRegion? || step.Initialize? || step.Leave? {
      TokenPresent(s, step.thread);
    }
    hide Inv, Names, CanMap, RoundUp, RequiredChunk, Referenced;
  }

  lemma AllocateMoves(s: State, step: Step)
    requires Inv(s) && Enabled(s, step) && step.AllocateRegion?
    ensures CallMoves(s.calls, step, Apply(s, step).0.calls, Apply(s, step).1)
  {
    hide Inv, Enabled, CallMoves, DoBegin, DoLockToken, DoGetSize, DoAllocate, DoInitialize, DoLeave, DoDestroy;
    AllocateCalls(s, step.thread, step.mapping, step.whole, step.novel);
  }

  lemma AllocateCalls(s: State, t: Name, mapping: int, whole: Name, novel: Name)
    requires Inv(s) && Enabled(s, AllocateRegion(t, mapping, whole, novel))
    ensures var (s', event) := DoAllocate(s, t, mapping, whole, novel);
            CallMoves(s.calls, AllocateRegion(t, mapping, whole, novel), s'.calls, event)
  {
    hide Inv, Enabled, Allocate, SetKey;
    EnabledAt(s, AllocateRegion(t, mapping, whole, novel));
  }

  lemma InitializeMoves(s: State, step: Step)
    requires Inv(s) && Enabled(s, step) && step.Initialize?
    ensures CallMoves(s.calls, step, Apply(s, step).0.calls, Apply(s, step).1)
  {
    hide Inv, Enabled, CallMoves, DoBegin, DoLockToken, DoGetSize, DoAllocate, DoInitialize, DoLeave, DoDestroy;
    InitializeCalls(s, step.thread, step.ok, step.holder);
  }

  lemma InitializeCalls(s: State, t: Name, ok: bool, h: Name)
    requires Inv(s) && Enabled(s, Initialize(t, ok, h))
    ensures CallMoves(s.calls, Initialize(t, ok, h), DoInitialize(s, t, ok, h).0.calls, DoInitialize(s, t, ok, h).1)
  {
    hide Inv, Enabled, FreeRegion, Hold, Publish;
    EnabledAt(s, Initialize(t, ok, h));
  }

  lemma BeginMoves(s: State, step: Step)
    requires Inv(s) && Enabled(s, step) && step.Begin?
    ensures CallMoves(s.calls, step, Apply(s, step).0.calls, Apply(s, step).1)
  {
    hide Inv, Enabled, Hold, DoInitialize, DoLockToken, DoGetSize, DoAllocate, DoLeave, DoDestroy;
    EnabledAt(s, step);
  }

  lemma LeaveMoves(s: State, step: Step)
    requires Inv(s) && Enabled(s, step) && (step.Leave? || step.LockToken? || step.GetSize?)
    ensures CallMoves(s.calls, step, Apply(s, step).0.calls, Apply(s, step).1)
  {
    hide Inv, Enabled, CallMoves, DoBegin, DoLockToken, DoGetSize, DoAllocate, DoInitialize, DoLeave, DoDestroy;
    match step {
      case Leave(t) => LeaveCalls(s, t);
      case LockToken(t) => LockCalls(s, t);
      case GetSize(t, result) => SizeCalls(s, t, result);
      case _ => assert false;
    }
  }

  lemma LeaveCalls(s: State, t: Name)
    requires Inv(s) && Enabled(s, Leave(t))
    ensures CallMoves(s.calls, Leave(t), DoLeave(s, t).0.calls, DoLeave(s, t).1)
  {
    hide Inv, Enabled;
    EnabledAt(s, Leave(t));
  }

  lemma LockCalls(s: State, t: Name)
    requires Inv(s) && Enabled(s, LockToken(t))
    ensures CallMoves(s.calls, LockToken(t), DoLockToken(s, t).0.calls, DoLockToken(s, t).1)
  {
    hide Inv, Enabled;
    EnabledAt(s, LockToken(t));
  }

  lemma SizeCalls(s: State, t: Name, result: Option<nat>)
    requires Inv(s) && Enabled(s, GetSize(t, result))
    ensures CallMoves(s.calls, GetSize(t, result), DoGetSize(s, t, result).0.calls, DoGetSize(s, t, result).1)
  {
    hide Inv, Enabled;
    EnabledAt(s, GetSize(t, result));
  }

  lemma HolderMoves(s: State, step: Step)
    requires Inv(s) && Enabled(s, step) && (step.CopyPtr? || step.DropPtr? || step.DestroyHolder?)
    ensures CallMoves(s.calls, step, Apply(s, step).0.calls, Apply(s, step).1)
  {
    hide Inv, Enabled, Unhold, DoInitialize, DoBegin, DoAllocate, DoLockToken, DoGetSize, DoLeave;
  }

  lemma StepMoves(s: State, step: Step)
    requires Inv(s) && Enabled(s, step)
    ensures CallMoves(s.calls, step, Apply(s, step).0.calls, Apply(s, step).1)
  {
    hide Inv, Enabled, Apply, CallMoves;
    match step {
      case AllocateRegion(_, _, _, _) => AllocateMoves(s, step);
      case Initialize(_, _, _) => InitializeMoves(s, step);
      case Begin(_, _, _, _) => BeginMoves(s, step);
      case Leave(_) => LeaveMoves(s, step);
      case LockToken(_) => LeaveMoves(s, step);
      case GetSize(_, _) => LeaveMoves(s, step);
      case _ => HolderMoves(s, step);
    }
  }

  // ---------- Regions that are being filled ----------

  /** They keep their size, but for the one that the step is about. */
  ghost predicate FilledSame(calls: map<Name, Call>, step: Step, meta: map<Name, Meta>, meta': map<Name, Meta>) {
    forall u | u in calls && !StepOf(step, u) && calls[u].stage.Filling? && calls[u].stage.region in meta ::
      calls[u].stage.region in meta' && meta'[calls[u].stage.region].size == meta[calls[u].stage.region].size
  }

  lemma AskedMoves(calls: map<Name, Call>, meta: map<Name, Meta>, m: map<Name, nat>, step: Step,
                   calls': map<Name, Call>, meta': map<Name, Meta>, event: Event)
    requires AsAsked(calls, meta, m) && CallMoves(calls, step, calls', event) && FilledSame(calls, step, meta, meta')
    requires step.AllocateRegion? && calls'[step.thread].stage.Filling? ==>
      && calls'[step.thread].stage.region in meta'
      && LeastMultiple(meta'[calls'[step.thread].stage.region].size, calls[step.thread].stage.size, 16)
    ensures AsAsked(calls', meta', Asked(m, step))
  {
    hide LeastMultiple;
    forall t | t in calls'
      ensures calls'[t].stage.Allocating? ==> t in Asked(m, step) && Asked(m, step)[t] == calls'[t].stage.size
      ensures calls'[t].stage.Filling? ==>
        && t in Asked(m, step) && calls'[t].stage.region in meta'
        && LeastMultiple(meta'[calls'[t].stage.region].size, Asked(m, step)[t], 16)
    {
      if !StepOf(step, t) { assert t in calls; }
    }
  }

  ghost predicate SizesSame(meta: map<Name, Meta>, meta': map<Name, Meta>) {
    forall x | x in meta :: x in meta' && meta'[x].size == meta[x].size
  }

  lemma HoldSizes(c: Cache<Name>, r: Name)
    requires r in c.meta
    ensures SizesSame(c.meta, Hold(c, r).meta) && (c.meta[r].refcount > 0 ==> SizesSame(c.meta, Unhold(c, r).meta))
  {
  }

  /** The regions being filled by other calls are allocated, and not the one of this call. */
  lemma OthersFill(s: State, t: Name, u: Name)
    requires Inv(s) && t in s.calls && u in s.calls && u != t && s.calls[u].stage.Filling?
    ensures s.calls[u].stage.region in s.cache.meta && s.cache.meta[s.calls[u].stage.region].Pinned()
    ensures s.calls[t].stage.Filling? ==> s.calls[u].stage.region != s.calls[t].stage.region
  {
    FillingCall(s, u);
    hide Valid, Counted, Registered, Called, Owned, Valued, HeldBytes, Drift;
  }

  /** The region that a granted request fills. */
  lemma AllocateMeta(s: State, step: Step)
    requires Inv(s) && Enabled(s, step) && step.AllocateRegion?
    ensures var s', t := Apply(s, step).0, step.thread;
            && (forall x | x in s.cache.meta && s.cache.meta[x].Pinned() ::
                  x in s'.cache.meta && s'.cache.meta[x].size == s.cache.meta[x].size)
            && t in s.calls && s.calls[t].stage.Allocating?
            && (t in s'.calls && s'.calls[t].stage.Filling? ==>
                  && s'.calls[t].stage.region in s'.cache.meta
                  && LeastMultiple(s'.cache.meta[s'.calls[t].stage.region].size, s.calls[t].stage.size, 16))
  {
    hide Valid, Counted, Registered, Called, Filled, Owned, Valued, HeldBytes, Drift, Allocate, Names, CanMap,
         DoBegin, DoLockToken, DoGetSize, DoInitialize, DoLeave, DoDestroy, RequiredChunk, BudgetLeft, RoundUp;
    AllocateResult(s.cache, s.calls[step.thread].stage.size, step.mapping, step.whole, step.novel);
  }

  lemma AllocateSizes(s: State, step: Step)
    requires Inv(s) && Enabled(s, step) && step.AllocateRegion?
    ensures FilledSame(s.calls, step, s.cache.meta, Apply(s, step).0.cache.meta)
  {
    hide Inv, Enabled, Apply;
    AllocateMeta(s, step);
    forall u | u in s.calls && u != step.thread && s.calls[u].stage.Filling?
      ensures s.calls[u].stage.region in s.cache.meta && s.cache.meta[s.calls[u].stage.region].Pinned()
    {
      OthersFill(s, step.thread, u);
    }
  }

  /** `initialize` changes the size of no region but its own. */
  lemma InitializeMeta(s: State, step: Step)
    requires Inv(s) && Enabled(s, step) && step.Initialize?
    ensures step.thread in s.calls && s.calls[step.thread].stage.Filling?
    ensures forall x | x in s.cache.meta && !s.cache.meta[x].isFree && x != s.calls[step.thread].stage.region ::
              x in Apply(s, step).0.cache.meta && Apply(s, step).0.cache.meta[x].size == s.cache.meta[x].size
  {
    hide Inv, Enabled, FreeRegion, Hold, DoBegin, DoLockToken, DoGetSize, DoAllocate, DoLeave, DoDestroy;
    EnabledAt(s, step);
    FillingCall(s, step.thread);
    var r := s.calls[step.thread].stage.region;
    HoldSizes(s.cache, r);
    InvValid(s);
    assert OnlyGrows(s.cache.meta, FreeRegion(s.cache, r).meta, r);
  }

  lemma InitializeSizes(s: State, step: Step)
    requires Inv(s) && Enabled(s, step) && step.Initialize?
    ensures FilledSame(s.calls, step, s.cache.meta, Apply(s, step).0.cache.meta)
  {
    hide Inv, Enabled, Apply;
    InitializeMeta(s, step);
    forall u | u in s.calls && u != step.thread && s.calls[u].stage.Filling?
      ensures s.calls[u].stage.region in s.cache.meta && s.cache.meta[s.calls[u].stage.region].Pinned()
      ensures s.calls[u].stage.region != s.calls[step.thread].stage.region
    {
      OthersFill(s, step.thread, u);
    }
  }

  lemma OtherSizes(s: State, step: Step)
    requires Inv(s) && Enabled(s, step) && !step.AllocateRegion? && !step.Initialize?
    ensures SizesSame(s.cache.meta, Apply(s, step).0.cache.meta)
  {
    hide Inv, Enabled, Hold, Unhold, DoAllocate, DoInitialize;
    EnabledAt(s, step);
    if step.Begin? && step.key in s.cache.keys {
      InvValid(s);
      KeyedRegion(s.cache, step.key);
      HoldSizes(s.cache, s.cache.keys[step.key]);
    }
    if step.DestroyHolder? {
      HolderDestroyable(s, step.holder);
      HoldSizes(s.cache, s.holders[step.holder]);
    }
  }

  lemma StepAsked(s: State, step: Step, m: map<Name, nat>)
    requires Inv(s) && Enabled(s, step) && AsAsked(s.calls, s.cache.meta, m)
    ensures AsAsked(Apply(s, step).0.calls, Apply(s, step).0.cache.meta, Asked(m, step))
  {
    hide Inv, Enabled, Apply, AsAsked, Asked, LeastMultiple;
    StepMoves(s, step);
    if step.AllocateRegion? {
      AllocateSizes(s, step);
      AllocateMeta(s, step);
    } else if step.Initialize? {
      InitializeSizes(s, step);
    } else {
      OtherSizes(s, step);
    }
    var (s', event) := Apply(s, step);
    AskedMoves(s.calls, s.cache.meta, m, step, s'.calls, s'.cache.meta, event);
  }

  lemma {:induction false} AskedKept(s: State, steps: seq<Step>, m: map<Name, nat>)
    requires Inv(s) && IsRun(s, steps) && AsAsked(s.calls, s.cache.meta, m)
    ensures AsAsked(After(s, steps).calls, After(s, steps).cache.meta, AskedIn(steps, m))
    decreases |steps|
  {
    hide Inv, Enabled, Apply, AsAsked, Asked;
    if steps != [] {
      StepKeepsInv(s, steps[0]);
      StepAsked(s, steps[0], m);
      AskedKept(Apply(s, steps[0]).0, steps[1..], Asked(m, steps[0]));
    }
  }

  /** Over every run of a new cache the region given to `initialize` has the size that the same call's
      `get_size` returned, rounded up to 16. */
  lemma FillsWhatWasAsked(maxTotal: nat, pageSize: nat, steps: seq<Step>)
    requires Inv(Empty(maxTotal, pageSize)) && IsRun(Empty(maxTotal, pageSize), steps)
    ensures var s := After(Empty(maxTotal, pageSize), steps); AsAsked(s.calls, s.cache.meta, AskedIn(steps, map[]))
  {
    hide Inv, After, IsRun, AskedIn;
    AskedKept(Empty(maxTotal, pageSize), steps, map[]);
  }

  // ---------- Every call is answered once ----------

  ghost predicate Refused(s: State, step: Step)
    requires Inv(s) && Enabled(s, step)
  {
    step.AllocateRegion? && Allocate(s.cache, s.calls[step.thread].stage.size, step.mapping, step.whole, step.novel).1.None?
  }

  /** What the answers are: an exception exactly when the caller's function threw, nothing exactly when
      `allocate` refused, a holder exactly on a hit, on a token with a value and after `initialize`. */
  lemma Outcomes(s: State, step: Step)
    requires Inv(s) && Enabled(s, step)
    ensures var event := Apply(s, step).1;
            && (event.Threw? <==> (step.GetSize? && step.result.None?) || (step.Initialize? && !step.ok))
            && (event.Returned? && event.holder.None? <==> Refused(s, step))
            && (event.Returned? && event.holder.Some? <==>
                  || (step.Begin? && step.key in s.cache.keys)
                  || (step.LockToken? && s.calls[step.thread].token in s.tokens && s.tokens[s.calls[step.thread].token].value.Some?)
                  || (step.Initialize? && step.ok))
  {
    hide Inv, Enabled, Allocate, FreeRegion, Hold, Unhold, Publish, SetKey;
    EnabledAt(s, step);
  }

  /** A call of thread `t` is running and has not been answered. */
  ghost predicate Unanswered(s: State, t: Name) {
    t in s.calls && !s.calls[t].stage.Leaving?
  }

  /** The step answers the call of thread `t`. */
  ghost predicate Answers(s: State, step: Step, t: Name)
    requires Inv(s) && Enabled(s, step)
  {
    StepOf(step, t) && !Apply(s, step).1.Internal?
  }

  /** An answer ends the wait of the call that it answers, and nothing else does. It names the key of the call. */
  lemma StepAnswers(s: State, step: Step, t: Name)
    requires Inv(s) && Enabled(s, step)
    ensures Answers(s, step, t) <==>
            (Unanswered(s, t) || (step.Begin? && step.thread == t)) && !Unanswered(Apply(s, step).0, t)
    ensures step.Begin? && step.thread == t ==> !Unanswered(s, t)
    ensures Unanswered(Apply(s, step).0, t) ==> Unanswered(s, t) || (step.Begin? && step.thread == t)
    ensures Answers(s, step, t) ==>
            Apply(s, step).1.key == if step.Begin? then step.key else if t in s.calls then s.calls[t].key else 0
  {
    hide Inv, Enabled, Apply;
    StepMoves(s, step);
  }

  ghost function Count(b: bool): nat { if b then 1 else 0 }

  ghost function AnswersIn(s: State, steps: seq<Step>, t: Name): nat
    requires Inv(s) && IsRun(s, steps)
    decreases |steps|
  {
    if steps == [] then 0
    else
      StepKeepsInv(s, steps[0]);
      Count(Answers(s, steps[0], t)) + AnswersIn(Apply(s, steps[0]).0, steps[1..], t)
  }

  ghost function BeginsIn(steps: seq<Step>, t: Name): nat {
    if steps == [] then 0 else Count(steps[0].Begin? && steps[0].thread == t) + BeginsIn(steps[1..], t)
  }

  /** In every run each call is answered exactly once, but for one that is still waiting or computing. */
  lemma {:induction false} AnsweredOnce(s: State, steps: seq<Step>, t: Name)
    requires Inv(s) && IsRun(s, steps)
    ensures Count(Unanswered(s, t)) + BeginsIn(steps, t) == AnswersIn(s, steps, t) + Count(Unanswered(After(s, steps), t))
    decreases |steps|
  {
    hide Inv, Enabled, Apply, Answers, Unanswered;
    if steps != [] {
      StepKeepsInv(s, steps[0]);
      StepAnswers(s, steps[0], t);
      AnsweredOnce(Apply(s, steps[0]).0, steps[1..], t);
    }
  }

  /** A call gets nothing exactly when no chunk for its request fits the budget and every window of the
      rounded size is touched by a region in use. */
  lemma NothingIff(s: State, step: Step, size: nat, paged: nat, need: nat)
    requires Inv(s) && Enabled(s, step) && step.AllocateRegion? && s.calls[step.thread].stage.size > 0
    requires s.cache.pageSize > 0 && Asks(s.cache.pageSize, s.calls[step.thread].stage.size, size, paged, need)
    ensures Apply(s, step).1 == Returned(s.calls[step.thread].key, None)
       <==> s.cache.totalChunks + need > s.cache.maxTotal && !HasClearWindow(s.cache, size)
  {
    EnabledAt(s, step);
    StepMoves(s, step);
    Outcomes(s, step);
    InvValid(s);
    hide Inv, Valid, Mapped, HasClearWindow, Allocate, DoAllocate, Names, CanMap, RoundUp, RequiredChunk, Asks;
    AsksFor(s.cache, s.calls[step.thread].stage.size, size, paged, need);
    AllocateRefusesIff(s.cache, s.calls[step.thread].stage.size, size, paged, need, step.mapping, step.whole, step.novel);
  }

  /** A holder that nobody points to any more can be destroyed, once no running call has it as its value. */
  lemma DroppedCanGo(s: State, h: Name)
    requires Inv(s) && h in s.ptrs && s.ptrs[h] == 0
    requires forall t | t in s.calls && s.calls[t].token in s.tokens :: s.tokens[s.calls[t].token].value != Some(h)
    ensures Enabled(s, DestroyHolder(h))
  {
    hide Valid, Counted, Called, Filled, Owned, Valued, HeldBytes, Drift, Users;
  }

  /** The callers decide what happens: any thread may call with any key, `get_size` and `initialize` may return
      or throw, and pointers may be copied and dropped. */
  lemma CallersDecide(s: State, t: Name, key: Key)
    requires Inv(s)
    ensures t !in s.calls ==> forall token, h | token !in s.tokens && h !in s.used :: Enabled(s, Begin(t, key, token, h))
    ensures AtStage(s.calls, t, Sizing) ==> forall result :: Enabled(s, GetSize(t, result))
    ensures t in s.calls && s.calls[t].stage.Filling? ==> forall ok, h | h !in s.used :: Enabled(s, Initialize(t, ok, h))
    ensures forall h | h in s.ptrs && s.ptrs[h] > 0 :: Enabled(s, CopyPtr(h)) && Enabled(s, DropPtr(h))
  {
    hide Inv;
  }

  /** How the number of pointers to a holder changes. */
  ghost function PointerChange(step: Step, event: Event, h: Name): int {
    if step == CopyPtr(h) then 1
    else if step == DropPtr(h) then -1
    else if step.LockToken? && event.Returned? && event.holder == Some(h) then 1
    else 0
  }

  /** Returning a new holder is the only way to add one. */
  lemma FreshHolders(s: State, step: Step)
    requires Inv(s) && Enabled(s, step)
    ensures match step
            case Begin(t, key, token, h) =>
              && h !in s.used && var (s', event) := DoBegin(s, t, key, token, h);
              s'.ptrs == s.ptrs || (s'.ptrs == s.ptrs[h := 1] && event == Returned(key, Some(h)))
            case GetSize(t, result) => DoGetSize(s, t, result).0.ptrs == s.ptrs
            case AllocateRegion(t, mapping, whole, novel) => DoAllocate(s, t, mapping, whole, novel).0.ptrs == s.ptrs
            case Initialize(t, ok, h) =>
              && h !in s.used && var (s', event) := DoInitialize(s, t, ok, h);
              s'.ptrs == s.ptrs || (s'.ptrs == s.ptrs[h := 1] && event.Returned? && event.holder == Some(h))
            case Leave(t) => DoLeave(s, t).0.ptrs == s.ptrs
            case CopyPtr(h) => h in s.ptrs
            case DropPtr(h) => h in s.ptrs && s.ptrs[h] > 0
            case _ => true
  {
    hide Inv, Allocate, FreeRegion, Hold, Unhold, Publish, SetKey, Names, CanMap, RoundUp, RequiredChunk, Referenced, Apply;
  }

  lemma StepPointers(s: State, step: Step, h: Name)
    requires Inv(s) && Enabled(s, step) && h in s.ptrs && h in Apply(s, step).0.ptrs && h in s.used
    ensures Apply(s, step).0.ptrs[h] == s.ptrs[h] + PointerChange(step, Apply(s, step).1, h)
  {
    hide Inv, Enabled, DoBegin, DoGetSize, DoAllocate, DoInitialize, DoLeave;
    FreshHolders(s, step);
  }

  /** A returned holder has one pointer: the one that was returned. */
  lemma NewPointer(s: State, step: Step, h: Name)
    requires Inv(s) && Enabled(s, step) && h !in s.used && h in Apply(s, step).0.ptrs
    ensures Apply(s, step).0.ptrs[h] == 1 && Apply(s, step).1.Returned? && Apply(s, step).1.holder == Some(h)
  {
    PtrsUsed(s, h);
    hide Inv, Enabled, DoBegin, DoGetSize, DoAllocate, DoInitialize, DoLeave;
    FreshHolders(s, step);
  }

  lemma PtrsUsed(s: State, h: Name)
    requires Inv(s)
    ensures h in s.ptrs ==> h in s.used
    ensures forall t | t in s.calls && s.calls[t].token in s.tokens && s.tokens[s.calls[t].token].value.Some? ::
              s.tokens[s.calls[t].token].value.value in s.ptrs
  {
    hide Valid, Counted, Registered, Called, Filled, Owned, HeldBytes, Drift;
  }
}
