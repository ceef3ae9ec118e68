/** What holds over every run of concurrent `getOrSet` calls. */
module CacheProtocolTheorems {
  import opened Lists
  import opened Tape
  import opened CacheRegions
  import opened CacheAllocate
  import opened CacheTheorems
  import opened CacheAccounting
  import opened CacheHolders
  import opened CacheProtocol
  import opened CacheProtocolProof

  // ---------- Runs ----------

  ghost function Empty(maxTotal: nat, pageSize: nat): State {
    State(Cache([], [], [], map[], map[], [], 0, 0, 0, maxTotal, pageSize),
          map[], map[], map[], map[], map[], {}, 0)
  }

  lemma EmptyInv(maxTotal: nat, pageSize: nat)
    requires pageSize > 0 && pageSize % ALIGNMENT == 0
    ensures Inv(Empty(maxTotal, pageSize))
  {
    var s := Empty(maxTotal, pageSize);
    assert TapeOf(s.cache.adj, s.cache.meta) == [];
  }

  /** The steps can be taken one after the other. */
  ghost predicate IsRun(s: State, steps: seq<Step>)
    requires Inv(s)
    decreases |steps|
  {
    if steps == [] then true
    else
      && Enabled(s, steps[0])
      && (StepKeepsInv(s, steps[0]); IsRun(Apply(s, steps[0]).0, steps[1..]))
  }

  ghost function After(s: State, steps: seq<Step>): (s': State)
    requires Inv(s) && IsRun(s, steps)
    ensures Inv(s')
    decreases |steps|
  {
    if steps == [] then s
    else StepKeepsInv(s, steps[0]); After(Apply(s, steps[0]).0, steps[1..])
  }

  /** Reachable by some interleaving of calls on a new cache. */
  ghost predicate Reachable(s: State) {
    exists maxTotal: nat, pageSize: nat, steps: seq<Step> ::
      && pageSize > 0 && pageSize % ALIGNMENT == 0 && Inv(Empty(maxTotal, pageSize))
      && IsRun(Empty(maxTotal, pageSize), steps) && s == After(Empty(maxTotal, pageSize), steps)
  }

  lemma {:induction false} RunExtends(s: State, steps: seq<Step>, step: Step)
    requires Inv(s) && IsRun(s, steps) && Enabled(After(s, steps), step)
    ensures IsRun(s, steps + [step]) && After(s, steps + [step]) == Apply(After(s, steps), step).0
    decreases |steps|
  {
    hide Inv, Apply, Enabled;
    if steps != [] {
      StepKeepsInv(s, steps[0]);
      RunExtends(Apply(s, steps[0]).0, steps[1..], step);
      assert (steps + [step])[0] == steps[0] && (steps + [step])[1..] == steps[1..] + [step];
    } else {
      StepKeepsInv(s, step);
      assert (steps + [step])[0] == step && (steps + [step])[1..] == [];
    }
  }

  lemma ReachableInv(s: State)
    requires Reachable(s)
    ensures Inv(s)
  {
    hide Inv, Apply, Enabled;
  }

  lemma ReachableStep(s: State, step: Step)
    requires Reachable(s) && Inv(s) && Enabled(s, step)
    ensures Reachable(Apply(s, step).0)
  {
    hide Inv, Apply, Enabled, After, IsRun;
    var maxTotal: nat, pageSize: nat, steps: seq<Step> :|
      && pageSize > 0 && pageSize % ALIGNMENT == 0 && Inv(Empty(maxTotal, pageSize))
      && IsRun(Empty(maxTotal, pageSize), steps) && s == After(Empty(maxTotal, pageSize), steps);
    RunExtends(Empty(maxTotal, pageSize), steps, step);
    assert IsRun(Empty(maxTotal, pageSize), steps + [step]);
  }

  // ---------- One initialization per key ----------

  /** While a thread is inside `get_size` or `initialize` for a key, the key is not cached and the
      thread's token is the registered one, which it owns. */
  lemma ComputesUncached(s: State, t: Name)
    requires Reachable(s) && t in s.calls && s.calls[t].stage.Computing()
    ensures s.calls[t].key !in s.cache.keys && s.calls[t].key in s.insertTokens
    ensures s.insertTokens[s.calls[t].key] == s.calls[t].token
    ensures s.calls[t].token in s.tokens && s.tokens[s.calls[t].token].owner == Some(t)
  {
    ReachableInv(s);
    hide Valid, Counted, Filled, Owned, Valued, HeldBytes, Drift, Users, Reachable;
  }

  /** At most one thread is there for a key. */
  lemma OneComputes(s: State, t: Name, u: Name)
    requires Reachable(s) && t in s.calls && u in s.calls && t != u
    requires s.calls[t].stage.Computing() && s.calls[u].stage.Computing()
    ensures s.calls[t].key != s.calls[u].key
  {
    hide Reachable;
    ComputesUncached(s, t);
    ComputesUncached(s, u);
  }

  /** A token that is not cleaned up is the registered one for its key, has no value yet, counts the
      calls on it, and its key is not in the cache. */
  lemma TokenRegistered(s: State, k: Name)
    requires Reachable(s) && k in s.tokens && !s.tokens[k].cleaned
    ensures s.tokens[k].key in s.insertTokens && s.insertTokens[s.tokens[k].key] == k && s.tokens[k].key !in s.cache.keys
    ensures s.tokens[k].value == None && s.tokens[k].refcount == |Users(s.calls, k)| > 0
  {
    ReachableInv(s);
    hide Valid, Counted, Called, Filled, Owned, Valued, HeldBytes, Drift, Users, Reachable;
  }

  /** Reference counts and the bytes in use are exact. */
  lemma HoldersCounted(s: State, r: Name)
    requires Reachable(s) && r in s.cache.meta
    ensures s.cache.meta[r].refcount == |HoldersOf(s.holders, r)|
    ensures (forall h | h in s.holders :: s.holders[h] in s.cache.meta)
    ensures s.cache.totalInUse == HeldBytes(s.holders.Keys, s.holders, s.cache.meta)
  {
    ReachableInv(s);
    hide Valid, Registered, Called, Filled, Owned, Valued, HeldBytes, Drift, HoldersOf, Reachable;
  }

  /** A holder that is alive, on a region with the key. */
  ghost predicate LiveFor(s: State, h: Name, key: Key) {
    && h in s.holders && h in s.ptrs && s.ptrs[h] > 0
    && s.holders[h] in s.cache.meta && s.cache.meta[s.holders[h]].key == Some(key)
  }

  lemma BeginLive(s: State, t: Name, key: Key, token: Name, h: Name)
    requires Inv(s) && key in s.cache.keys
    ensures LiveFor(DoBegin(s, t, key, token, h).0, h, key)
  {
    KeyedRegion(s.cache, key);
    hide Inv, Valid;
  }

  lemma LockLive(s: State, t: Name)
    requires Inv(s) && t in s.calls && s.calls[t].token in s.tokens && s.tokens[s.calls[t].token].value.Some?
    ensures LiveFor(DoLockToken(s, t).0, s.tokens[s.calls[t].token].value.value, s.calls[t].key)
  {
    hide Valid, Counted, Registered, Filled, Owned, HeldBytes, Drift;
  }

  lemma InitializeLive(s: State, t: Name, h: Name)
    requires Inv(s) && Enabled(s, Initialize(t, true, h))
    ensures LiveFor(DoInitialize(s, t, true, h).0, h, s.calls[t].key)
  {
    hide Inv, FreeRegion, Without;
    FillingCall(s, t);
  }

  lemma StepLive(s: State, step: Step)
    requires Inv(s) && Enabled(s, step)
    requires Apply(s, step).1.Returned? && Apply(s, step).1.holder.Some?
    ensures LiveFor(Apply(s, step).0, Apply(s, step).1.holder.value, Apply(s, step).1.key)
  {
    hide Inv, LiveFor, Allocate, AddHolder, Publish, FreeRegion;
    match step {
      case Begin(t, key, token, holder) => BeginLive(s, t, key, token, holder);
      case LockToken(t) =>
        TokenPresent(s, t);
        LockLive(s, t);
      case Initialize(t, ok, holder) => InitializeLive(s, t, holder);
    }
  }

  /** Any result is a live holder of a pinned region with the requested key. */
  lemma ResultIsLive(s: State, step: Step)
    requires Inv(s) && Enabled(s, step)
    requires Apply(s, step).1.Returned? && Apply(s, step).1.holder.Some?
    ensures var s', key, h := Apply(s, step).0, Apply(s, step).1.key, Apply(s, step).1.holder.value;
            && LiveFor(s', h, key)
            && s'.cache.meta[s'.holders[h]].refcount > 0 && s'.cache.meta[s'.holders[h]].Pinned()
  {
    hide Inv, Enabled, Apply;
    StepLive(s, step);
    StepKeepsInv(s, step);
    HolderRegion(Apply(s, step).0, Apply(s, step).1.holder.value);
  }

  // ---------- What holders and waiters can rely on ----------

  /** Where the bytes are and whose they are. */
  ghost predicate SameBytes(m: Meta, m': Meta) {
    m'.ptr == m.ptr && m'.size == m.size && m'.chunk == m.chunk && m'.key == m.key
  }

  lemma HolderRegion(s: State, h: Name)
    requires Inv(s) && h in s.holders
    ensures s.holders[h] in s.cache.meta && s.cache.meta[s.holders[h]].refcount > 0
    ensures s.cache.meta[s.holders[h]].Pinned()
  {
    HolderPins(s.cache.meta, s.holders, h);
    ValidStates(s.cache);
    hide Inv;
  }

  lemma HolderUsed(s: State, h: Name)
    requires Inv(s) && h in s.holders
    ensures h in s.used
  {
    hide Valid, Counted, Registered, Called, Filled, Owned, HeldBytes, Drift;
  }

  lemma AllocateKeepsHeld(s: State, step: Step, r: Name)
    requires Inv(s) && Enabled(s, step) && step.AllocateRegion?
    requires r in s.cache.meta && s.cache.meta[r].Pinned() && s.cache.meta[r].refcount > 0
    ensures r in Apply(s, step).0.cache.meta && SameBytes(s.cache.meta[r], Apply(s, step).0.cache.meta[r])
  {
    hide Valid, Counted, Registered, Called, Filled, Owned, Valued, HeldBytes, Drift, Allocate, Names, CanMap;
    AllocateResult(s.cache, s.calls[step.thread].stage.size, step.mapping, step.whole, step.novel);
  }

  lemma ThrowKeepsHeld(s: State, step: Step, r: Name)
    requires Inv(s) && Enabled(s, step) && step.Initialize? && !step.ok
    requires r in s.cache.meta && s.cache.meta[r].Pinned() && s.cache.meta[r].refcount > 0
    ensures r in Apply(s, step).0.cache.meta && SameBytes(s.cache.meta[r], Apply(s, step).0.cache.meta[r])
  {
    hide Valid, Counted, Registered, Called, Filled, Owned, Valued, HeldBytes, Drift, FreeRegion;
    FillingCall(s, step.thread);
    var x := s.calls[step.thread].stage.region;
    assert OnlyGrows(s.cache.meta, FreeRegion(s.cache, x).meta, x);
  }

  lemma InitializeKeepsHeld(s: State, step: Step, r: Name)
    requires Inv(s) && Enabled(s, step) && step.Initialize? && step.ok && r in s.cache.meta
    ensures r in Apply(s, step).0.cache.meta && SameBytes(s.cache.meta[r], Apply(s, step).0.cache.meta[r])
  {
    hide Inv, FreeRegion, DoBegin, DoLockToken, DoGetSize, DoAllocate, DoLeave, DoDestroy;
    FillingCall(s, step.thread);
    hide Without;
  }

  lemma OtherKeepsHeld(s: State, step: Step, r: Name)
    requires Inv(s) && Enabled(s, step) && !step.AllocateRegion? && !step.Initialize? && r in s.cache.meta
    ensures r in Apply(s, step).0.cache.meta && SameBytes(s.cache.meta[r], Apply(s, step).0.cache.meta[r])
  {
    hide Inv, DoAllocate, DoInitialize;
  }

  lemma HoldersKept(s: State, step: Step, h: Name)
    requires Inv(s) && Enabled(s, step) && h in s.holders && h in Apply(s, step).0.holders && h in s.used
    ensures Apply(s, step).0.holders[h] == s.holders[h]
  {
    hide Inv, Allocate, FreeRegion, Names, CanMap, Hold, Unhold, Publish, SetKey;
  }

  /** As long as a holder lives, no step moves, resizes, rekeys or frees its region. */
  lemma HeldStable(s: State, step: Step, h: Name)
    requires Inv(s) && Enabled(s, step) && h in s.holders && h in Apply(s, step).0.holders
    ensures var s' := Apply(s, step).0;
            && s'.holders[h] == s.holders[h] && s.holders[h] in s.cache.meta && s.holders[h] in s'.cache.meta
            && SameBytes(s.cache.meta[s.holders[h]], s'.cache.meta[s.holders[h]])
            && s'.cache.meta[s.holders[h]].Pinned()
  {
    hide Inv, Enabled, Apply;
    HolderUsed(s, h);
    HoldersKept(s, step, h);
    HolderRegion(s, h);
    StepKeepsInv(s, step);
    HolderRegion(Apply(s, step).0, h);
    if step.AllocateRegion? {
      AllocateKeepsHeld(s, step, s.holders[h]);
    } else if step.Initialize? && !step.ok {
      ThrowKeepsHeld(s, step, s.holders[h]);
    } else if step.Initialize? {
      InitializeKeepsHeld(s, step, s.holders[h]);
    } else {
      OtherKeepsHeld(s, step, s.holders[h]);
    }
  }

  /** The value of a token never changes once it is there, so all calls on it get the same holder. */
  lemma ValueStable(s: State, step: Step, k: Name)
    requires Inv(s) && Enabled(s, step) && k in s.tokens && s.tokens[k].value.Some?
    ensures var s' := Apply(s, step).0;
            k in s'.tokens && s'.tokens[k].value == s.tokens[k].value && s'.tokens[k].cleaned
  {
    hide Valid, Counted, Filled, Owned, Valued, HeldBytes, Drift, Users, Hold, Unhold, FreeRegion, Publish, SetKey, Allocate;
    if step.Initialize? {
      hide Registered;
      InitializeKeepsValue(s, step.thread, step.ok, step.holder, k);
    } else if step.Begin? {
      hide DoInitialize, DoAllocate, DoLeave, DoLockToken, DoGetSize, DoDestroy;
    } else {
      hide DoInitialize, DoBegin;
    }
  }

  lemma InitializeKeepsValue(s: State, t: Name, ok: bool, h: Name, k: Name)
    requires Inv(s) && Enabled(s, Initialize(t, ok, h)) && k in s.tokens && s.tokens[k].value.Some?
    ensures var s' := DoInitialize(s, t, ok, h).0;
            k in s'.tokens && s'.tokens[k].value == s.tokens[k].value && s'.tokens[k].cleaned
  {
    hide Valid, Counted, Filled, Owned, Valued, HeldBytes, Drift, Users, Hold, FreeRegion, Publish;
  }

  /** Over a whole run a value that is there stays there. */
  lemma {:induction false} ValueKept(s: State, steps: seq<Step>, k: Name)
    requires Inv(s) && IsRun(s, steps) && k in s.tokens && s.tokens[k].value.Some?
    ensures var s' := After(s, steps); k in s'.tokens && s'.tokens[k].value == s.tokens[k].value
    decreases |steps|
  {
    hide Inv, Enabled, Apply;
    if steps != [] {
      StepKeepsInv(s, steps[0]);
      ValueStable(s, steps[0], k);
      ValueKept(Apply(s, steps[0]).0, steps[1..], k);
    }
  }

  /** So whenever a call that waits on the token gets its mutex, it returns that very holder, alive and on a
      region with its key. */
  lemma WaiterGets(s: State, steps: seq<Step>, k: Name, t: Name)
    requires Inv(s) && IsRun(s, steps) && k in s.tokens && s.tokens[k].value.Some?
    requires var s' := After(s, steps); Enabled(s', LockToken(t)) && s'.calls[t].token == k
    ensures var s' := After(s, steps);
            var (s'', event) := Apply(s', LockToken(t));
            event == Returned(s'.calls[t].key, s.tokens[k].value) && LiveFor(s'', s.tokens[k].value.value, s'.calls[t].key)
  {
    hide Inv, After, IsRun;
    ValueKept(s, steps, k);
    LockLive(After(s, steps), t);
    hide LiveFor;
  }

  /** Names of holders are never used again. */
  ghost predicate NamesGrow(s: State, s': State) {
    s.used <= s'.used && forall h | h in s.used && h in s'.holders :: h in s.holders
  }

  lemma InitializeNames(s: State, t: Name, ok: bool, h: Name)
    requires Inv(s) && Enabled(s, Initialize(t, ok, h))
    ensures NamesGrow(s, DoInitialize(s, t, ok, h).0)
  {
    hide Inv, FreeRegion, Hold, Publish;
  }

  lemma StepNames(s: State, step: Step)
    requires Inv(s) && Enabled(s, step)
    ensures NamesGrow(s, Apply(s, step).0)
  {
    hide Inv, Allocate, Names, CanMap, Hold, Unhold, SetKey, DoInitialize, RoundUp, RequiredChunk;
    if step.Initialize? { InitializeNames(s, step.thread, step.ok, step.holder); }
  }

  lemma {:induction false} GoneForGood(s: State, steps: seq<Step>, h: Name)
    requires Inv(s) && IsRun(s, steps) && h in s.used && h !in s.holders
    ensures h !in After(s, steps).holders
    decreases |steps|
  {
    hide Inv, Enabled, Apply;
    if steps != [] {
      StepKeepsInv(s, steps[0]);
      StepNames(s, steps[0]);
      GoneForGood(Apply(s, steps[0]).0, steps[1..], h);
    }
  }

  /** A holder that is alive at both ends of a run has kept its region, bytes, place and key. */
  lemma {:induction false} HeldKept(s: State, steps: seq<Step>, h: Name)
    requires Inv(s) && IsRun(s, steps) && h in s.holders && h in After(s, steps).holders
    ensures var s' := After(s, steps);
            && s'.holders[h] == s.holders[h] && s.holders[h] in s.cache.meta && s.holders[h] in s'.cache.meta
            && SameBytes(s.cache.meta[s.holders[h]], s'.cache.meta[s.holders[h]])
            && s'.cache.meta[s.holders[h]].Pinned()
    decreases |steps|
  {
    hide Inv, Enabled, Apply;
    if steps == [] {
      HolderRegion(s, h);
    } else {
      StepKeepsInv(s, steps[0]);
      HolderUsed(s, h);
      StepNames(s, steps[0]);
      if h !in Apply(s, steps[0]).0.holders { GoneForGood(Apply(s, steps[0]).0, steps[1..], h); }
      HeldStable(s, steps[0], h);
      HeldKept(Apply(s, steps[0]).0, steps[1..], h);
    }
  }

  // ---------- Progress ----------

  lemma Unused(names: set<Name>) returns (n: Name)
    ensures n !in names && forall x | x in names :: x < n
  {
    n := 0;
    var rest := names;
    while rest != {}
      invariant rest <= names && forall x | x in names && x !in rest :: x < n
      decreases |rest|
    {
      var x :| x in rest;
      if x >= n {
        n := x + 1;
      }
      rest := rest - {x};
    }
  }

  lemma FreshMapping(chunks: seq<Chunk>, size: nat) returns (p: int)
    requires size % ALIGNMENT == 0
    ensures CanMap(chunks, Chunk(p, size))
  {
    p := 0;
    for i := 0 to |chunks|
      invariant p % ALIGNMENT == 0 && forall j | 0 <= j < i :: chunks[j].ptr + chunks[j].size <= p
    {
      var end := chunks[i].ptr + chunks[i].size;
      if end > p {
        p := end / 16 * 16 + 16;
      }
    }
  }

  ghost predicate MayMove(s: State, t: Name)
    requires Inv(s)
  {
    exists step :: Enabled(s, step) && !step.CopyPtr? && !step.DropPtr? && !step.DestroyHolder? && step.thread == t
  }

  /** A computing thread can always take its next step. */
  lemma ComputingMoves(s: State, t: Name)
    requires Inv(s) && t in s.calls && s.calls[t].stage.Computing()
    ensures MayMove(s, t)
  {
    hide Counted, Registered, Filled, Owned, HeldBytes, Drift, Users;
    match s.calls[t].stage
    case Sizing => assert Enabled(s, GetSize(t, None));
    case Allocating(size) =>
      assert Mapped(s.cache);
      hide Valid;
      var whole := Unused(s.cache.meta.Keys);
      var p := FreshMapping(s.cache.chunks, RequiredChunk(s.cache, RoundUp(size, ALIGNMENT)));
      assert Enabled(s, AllocateRegion(t, p, whole, whole + 1));
    case Filling(r) =>
      var h := Unused(s.used);
      assert Enabled(s, Initialize(t, true, h));
  }

  /** No deadlock: while a call is running, some thread inside `getOrSet` can move. */
  lemma Progress(s: State)
    requires Reachable(s) && s.calls != map[]
    ensures exists t :: t in s.calls && MayMove(s, t)
  {
    hide Valid, Counted, Registered, Filled, Owned, Valued, HeldBytes, Drift, Users;
    var t :| t in s.calls;
    var k := s.calls[t].token;
    if s.calls[t].stage.Computing() {
      ComputingMoves(s, t);
    } else if s.tokens[k].owner.Some? {
      ComputingMoves(s, s.tokens[k].owner.value);
    } else if s.calls[t].stage.Waiting? {
      assert Enabled(s, LockToken(t));
    } else {
      assert Enabled(s, Leave(t));
    }
  }

  // ---------- The allocation counter ----------

  /** The counter is the sum of the allocated region sizes and of what has leaked. */
  lemma CounterPlusLeaked(s: State)
    requires Inv(s)
    ensures s.cache.totalAllocated == UsedBytes(TapeOf(s.cache.adj, s.cache.meta)) + s.leaked
  {
    hide Counted, Registered, Called, Filled, Owned, Valued, HeldBytes;
    CounterIsSum(s.cache);
  }

  /** Only a throwing `initialize` leaks, namely the size of the region it was given. */
  lemma LeakedBy(s: State, step: Step)
    requires Inv(s) && Enabled(s, step)
    ensures Apply(s, step).0.leaked == s.leaked +
              if step.Initialize? && !step.ok then s.cache.meta[s.calls[step.thread].stage.region].size else 0
  {
    hide Valid, Counted, Registered, HeldBytes, Drift, Users, Hold, Unhold, FreeRegion, Publish, SetKey, Allocate;
  }

  /** A step in which `initialize` throws on a region that is not empty. */
  ghost predicate Leaks(s: State, step: Step)
    requires Inv(s) && Enabled(s, step)
  {
    && step.Initialize? && !step.ok
    && (FillingCall(s, step.thread); s.cache.meta[s.calls[step.thread].stage.region].size > 0)
  }

  /** No step of the run does. */
  ghost predicate LeakFree(s: State, steps: seq<Step>)
    requires Inv(s) && IsRun(s, steps)
    decreases |steps|
  {
    steps != [] ==>
      && !Leaks(s, steps[0])
      && (StepKeepsInv(s, steps[0]); LeakFree(Apply(s, steps[0]).0, steps[1..]))
  }

  lemma LeaksIff(s: State, step: Step)
    requires Inv(s) && Enabled(s, step)
    ensures Apply(s, step).0.leaked >= s.leaked && (Apply(s, step).0.leaked > s.leaked <==> Leaks(s, step))
  {
    LeakedBy(s, step);
    hide Inv, Apply;
  }

  lemma {:induction false} LeakedOver(s: State, steps: seq<Step>)
    requires Inv(s) && IsRun(s, steps)
    ensures After(s, steps).leaked >= s.leaked && (After(s, steps).leaked == s.leaked <==> LeakFree(s, steps))
    decreases |steps|
  {
    hide Inv, Enabled, Apply, Leaks;
    if steps != [] {
      StepKeepsInv(s, steps[0]);
      LeaksIff(s, steps[0]);
      LeakedOver(Apply(s, steps[0]).0, steps[1..]);
    }
  }

  /** After any run of a new cache the counter is exact if and only if no `initialize` of the run has thrown
      on a region that is not empty. */
  lemma CounterExactIff(maxTotal: nat, pageSize: nat, steps: seq<Step>)
    requires Inv(Empty(maxTotal, pageSize)) && IsRun(Empty(maxTotal, pageSize), steps)
    ensures var s := After(Empty(maxTotal, pageSize), steps);
            s.cache.totalAllocated == UsedBytes(TapeOf(s.cache.adj, s.cache.meta))
            <==> LeakFree(Empty(maxTotal, pageSize), steps)
  {
    hide Inv, After, IsRun, LeakFree;
    LeakedOver(Empty(maxTotal, pageSize), steps);
    CounterPlusLeaked(After(Empty(maxTotal, pageSize), steps));
  }

  /** A cache of one chunk on which one call, by thread 0, has not yet allocated anything. */
  ghost predicate Alone(s: State, key: Key, stage: Stage) {
    && s.calls == map[0 := Call(key, 0, false, stage)] && 0 in s.tokens
    && s.tokens[0].value == None && !s.tokens[0].cleaned && (s.tokens[0].owner == None <==> stage.Waiting?)
    && s.cache == Empty(MIN_CHUNK_SIZE, 4096).cache && s.used == {} && s.leaked == 0
    && Reachable(s) && Inv(s)
  }

  lemma AloneWaiting(key: Key) returns (s: State)
    ensures Alone(s, key, Waiting)
  {
    var s0 := Empty(MIN_CHUNK_SIZE, 4096);
    EmptyInv(MIN_CHUNK_SIZE, 4096);
    assert IsRun(s0, []) && After(s0, []) == s0;
    assert Reachable(s0);
    hide After, IsRun, Reachable, Inv;
    s := Apply(s0, Begin(0, key, 0, 0)).0;
    ReachableStep(s0, Begin(0, key, 0, 0));
    ReachableInv(s);
  }

  lemma AloneAllocating(key: Key) returns (s: State)
    ensures Alone(s, key, Allocating(16))
  {
    hide Reachable, Inv;
    var s1 := AloneWaiting(key);
    var s2 := Apply(s1, LockToken(0)).0;
    ReachableStep(s1, LockToken(0));
    ReachableInv(s2);
    s := Apply(s2, GetSize(0, Some(16))).0;
    ReachableStep(s2, GetSize(0, Some(16)));
    ReachableInv(s);
  }

  lemma Required16(c: Cache<Name>)
    requires Mapped(c) && c == Empty(MIN_CHUNK_SIZE, 4096).cache
    ensures RoundUp(16, ALIGNMENT) == 16 && RequiredChunk(c, 16) == MIN_CHUNK_SIZE && BudgetLeft(c, 16)
    ensures CanMap(c.chunks, Chunk(0, MIN_CHUNK_SIZE))
  {
    hide RoundUp;
  }

  lemma InvValid(s: State)
    requires Inv(s)
    ensures Valid(s.cache) && Mapped(s.cache) && Indexed(s.cache)
  {
  }

  lemma MayAllocate16(s: State)
    requires Inv(s) && Valid(s.cache) && Mapped(s.cache) && s.cache == Empty(MIN_CHUNK_SIZE, 4096).cache
    requires 0 in s.calls && s.calls[0].stage == Allocating(16)
    ensures Enabled(s, AllocateRegion(0, 0, 0, 1))
  {
    hide Inv, Valid, Mapped, RoundUp, RequiredChunk, CanMap, NeedsChunk;
    Required16(s.cache);
  }

  /** Thread 0 has been given 16 bytes. */
  ghost predicate Filling16(s: State, s': State) {
    && 0 in s'.calls && s'.calls[0].stage.Filling? && s'.leaked == s.leaked && s'.used == s.used
    && s'.calls[0].stage.region in s'.cache.meta && s'.cache.meta[s'.calls[0].stage.region].size == 16
  }

  lemma Allocated16(s: State)
    requires Inv(s) && Enabled(s, AllocateRegion(0, 0, 0, 1))
    requires Mapped(s.cache) && 0 in s.calls && s.calls[0].stage == Allocating(16) && BudgetLeft(s.cache, 16)
    ensures Filling16(s, DoAllocate(s, 0, 0, 0, 1).0)
  {
    hide Inv, Allocate, Valid, Mapped, RoundUp, RequiredChunk, CanMap, Names, Exhausted, BudgetLeft;
    InvValid(s);
    Sixteen();
    AllocateResult(s.cache, 16, 0, 0, 1);
  }

  lemma Sixteen()
    ensures RoundUp(16, ALIGNMENT) == 16
  {
  }

  /** A run of one call, up to the point where `initialize` may throw. */
  lemma FillOnce(key: Key) returns (s: State)
    ensures Reachable(s) && Inv(s) && 0 in s.calls && s.calls[0].stage.Filling? && s.leaked == 0 && s.used == {}
    ensures s.calls[0].stage.region in s.cache.meta && s.cache.meta[s.calls[0].stage.region].size == 16
  {
    hide Reachable, Inv, Valid, Mapped, Enabled, DoAllocate, Empty, BudgetLeft, RequiredChunk, CanMap, RoundUp, Indexed;
    var s3 := AloneAllocating(key);
    InvValid(s3);
    MayAllocate16(s3);
    Required16(s3.cache);
    Allocated16(s3);
    ReachableStep(s3, AllocateRegion(0, 0, 0, 1));
    s := Apply(s3, AllocateRegion(0, 0, 0, 1)).0;
    ReachableInv(s);
  }

  /** The counter does drift: the throw leaves it 16 bytes above the allocated regions. */
  lemma CounterDrifts(key: Key) returns (s: State)
    ensures Reachable(s) && Inv(s)
    ensures s.cache.totalAllocated == UsedBytes(TapeOf(s.cache.adj, s.cache.meta)) + 16
  {
    hide Reachable, Apply, Inv;
    var s4 := FillOnce(key);
    var step := Initialize(0, false, 0);
    ReachableStep(s4, step);
    LeakedBy(s4, step);
    s := Apply(s4, step).0;
    ReachableInv(s);
    InvValid(s);
    CounterPlusLeaked(s);
  }
}
