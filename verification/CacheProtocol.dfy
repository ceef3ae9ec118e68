/** `getOrSet` as a step system: any number of threads, one step per critical section.
    Tokens, holders and their shared pointers are explicit, so every interleaving is a run. */
module CacheProtocol {
  import opened Lists
  import opened Tape
  import opened CacheRegions
  import opened CacheAllocate
  import opened CacheTheorems
  import opened CacheAccounting
  import opened CacheHolders

  type Name = nat

  /** A pending insertion attempt. `owner` is the thread that has locked the token mutex. */
  datatype Token = Token(key: Key, cleaned: bool, value: Option<Name>, refcount: nat, owner: Option<Name>)

  datatype Stage =
    | Waiting                  // before the token mutex is locked
    | Sizing                   // inside get_size
    | Allocating(size: nat)    // before the critical section that allocates
    | Filling(region: Name)    // inside initialize
    | Leaving                  // the token holder is about to be destroyed
  {
    /** The stages in which the thread runs the caller's functions or acts on their result. */
    ghost predicate Computing() { Sizing? || Allocating? || Filling? }
  }

  /** A running call; `cleaned` is the flag of its token holder. */
  datatype Call = Call(key: Key, token: Name, cleaned: bool, stage: Stage)

  /** `calls` maps the threads inside `getOrSet`; `holders` maps each live holder to its region and
      `ptrs` counts the user's shared pointers to it.  `used` remembers all holder names. */
  datatype State = State(
    cache: Cache<Name>, calls: map<Name, Call>,
    tokens: map<Name, Token>, insertTokens: map<Key, Name>,
    holders: map<Name, Name>, ptrs: map<Name, nat>, used: set<Name>, leaked: nat)

  datatype Event =
    | Internal
    | Returned(key: Key, holder: Option<Name>)
    | Threw(key: Key)

  // ---------- The invariant ----------

  ghost function HoldersOf(holders: map<Name, Name>, r: Name): set<Name> {
    set h | h in holders && holders[h] == r
  }

  /** The reference count of every region is the number of its live holders. */
  ghost predicate Counted(meta: map<Name, Meta>, holders: map<Name, Name>) {
    && (forall h | h in holders :: holders[h] in meta)
    && (forall r | r in meta :: meta[r].refcount == |HoldersOf(holders, r)|)
  }

  ghost function Users(calls: map<Name, Call>, k: Name): set<Name> {
    set t | t in calls && calls[t].token == k
  }

  /** An uncleaned token is the one registered for its key, has produced no value yet and counts
      the calls that use it; registered tokens are uncleaned. */
  ghost predicate Registered(tokens: map<Name, Token>, insertTokens: map<Key, Name>, calls: map<Name, Call>) {
    && (forall key | key in insertTokens ::
          insertTokens[key] in tokens && tokens[insertTokens[key]].key == key && !tokens[insertTokens[key]].cleaned)
    && (forall k | k in tokens && !tokens[k].cleaned ::
          && tokens[k].key in insertTokens && insertTokens[tokens[k].key] == k
          && tokens[k].value == None && tokens[k].refcount == |Users(calls, k)| > 0)
  }

  /** Every call refers to a token for its key; computing calls own an uncleaned token; a call on
      a cleaned token finds a value there or has left it. */
  ghost predicate Called(tokens: map<Name, Token>, calls: map<Name, Call>) {
    && (forall t | t in calls ::
          && calls[t].token in tokens && tokens[calls[t].token].key == calls[t].key
          && (calls[t].stage.Computing() ==>
                tokens[calls[t].token].owner == Some(t) && !tokens[calls[t].token].cleaned && !calls[t].cleaned)
          && (calls[t].cleaned ==> tokens[calls[t].token].cleaned)
          && (calls[t].stage.Waiting? && tokens[calls[t].token].cleaned ==> tokens[calls[t].token].value.Some?))
    && (forall k | k in tokens && tokens[k].owner.Some? ::
          && tokens[k].owner.value in calls && calls[tokens[k].owner.value].token == k
          && calls[tokens[k].owner.value].stage.Computing())
  }

  /** Filling calls have a pending region of their own, with their key. */
  ghost predicate Filled(meta: map<Name, Meta>, calls: map<Name, Call>) {
    && (forall t | t in calls && calls[t].stage.Filling? ::
          && calls[t].stage.region in meta && meta[calls[t].stage.region].Pending()
          && meta[calls[t].stage.region].key == Some(calls[t].key))
    && (forall t, u | t in calls && u in calls && t != u && calls[t].stage.Filling? && calls[u].stage.Filling? ::
          calls[t].stage.region != calls[u].stage.region)
  }

  /** Every pending region is the one some call is filling: no region is lost. */
  ghost predicate Owned(meta: map<Name, Meta>, calls: map<Name, Call>) {
    forall r | r in meta && meta[r].Pending() :: exists t :: t in calls && calls[t].stage == Filling(r)
  }

  /** Values of tokens in use are live holders of a region with the key of the token. */
  ghost predicate Valued(s: State) {
    && s.ptrs.Keys == s.holders.Keys <= s.used
    && (forall t | t in s.calls && s.calls[t].token in s.tokens && s.tokens[s.calls[t].token].value.Some? ::
          var h := s.tokens[s.calls[t].token].value.value;
          h in s.holders && s.holders[h] in s.cache.meta && s.cache.meta[s.holders[h]].key == Some(s.calls[t].key))
  }

  ghost function HeldBytes(hs: set<Name>, holders: map<Name, Name>, meta: map<Name, Meta>): int
    requires forall h | h in hs :: h in holders && holders[h] in meta
  {
    if hs == {} then 0
    else
      var h :| h in hs;
      meta[holders[h]].size + HeldBytes(hs - {h}, holders, meta)
  }

  ghost predicate Inv(s: State) {
    && Valid(s.cache) && Counted(s.cache.meta, s.holders)
    && Registered(s.tokens, s.insertTokens, s.calls) && Called(s.tokens, s.calls)
    && Filled(s.cache.meta, s.calls) && Owned(s.cache.meta, s.calls) && Valued(s)
    && s.cache.keys.Keys !! s.insertTokens.Keys
    && s.cache.totalInUse == HeldBytes(s.holders.Keys, s.holders, s.cache.meta)
    && Drift(s.cache) == s.leaked
  }

  // ---------- The steps ----------

  datatype Step =
    | Begin(thread: Name, key: Key, token: Name, holder: Name)
    | LockToken(thread: Name)
    | GetSize(thread: Name, result: Option<nat>)
    | AllocateRegion(thread: Name, mapping: int, whole: Name, novel: Name)
    | Initialize(thread: Name, ok: bool, holder: Name)
    | Leave(thread: Name)
    | CopyPtr(holder: Name)
    | DropPtr(holder: Name)
    | DestroyHolder(holder: Name)

  ghost predicate MutexFree(s: State, t: Name)
    requires t in s.calls && s.calls[t].token in s.tokens
  {
    s.tokens[s.calls[t].token].owner == None
  }

  /** A token is alive while the map or a call refers to it, and keeps its value alive. */
  ghost predicate Referenced(s: State, h: Name) {
    || h !in s.ptrs || s.ptrs[h] > 0
    || (exists t :: t in s.calls && s.calls[t].token in s.tokens && s.tokens[s.calls[t].token].value == Some(h))
    || (exists key :: key in s.insertTokens && s.insertTokens[key] in s.tokens
                      && s.tokens[s.insertTokens[key]].value == Some(h))
  }

  ghost predicate Enabled(s: State, step: Step)
    requires Inv(s)
  {
    match step
    case Begin(t, key, token, holder) => t !in s.calls && token !in s.tokens && holder !in s.used
    case LockToken(t) => t in s.calls && s.calls[t].stage.Waiting? && MutexFree(s, t)
    case GetSize(t, _) => t in s.calls && s.calls[t].stage.Sizing?
    case AllocateRegion(t, mapping, whole, novel) =>
      && t in s.calls && s.calls[t].stage.Allocating?
      && var size := RoundUp(s.calls[t].stage.size, ALIGNMENT);
         Names(s.cache, size, whole, novel) && CanMap(s.cache.chunks, Chunk(mapping, RequiredChunk(s.cache, size)))
    case Initialize(t, _, holder) => t in s.calls && s.calls[t].stage.Filling? && holder !in s.used
    case Leave(t) => t in s.calls && s.calls[t].stage.Leaving? && (s.calls[t].cleaned || MutexFree(s, t))
    case CopyPtr(h) => h in s.ptrs && s.ptrs[h] > 0
    case DropPtr(h) => h in s.ptrs && s.ptrs[h] > 0
    case DestroyHolder(h) => !Referenced(s, h)
  }

  ghost function SetStage(s: State, t: Name, stage: Stage): map<Name, Call>
    requires t in s.calls
  {
    s.calls[t := s.calls[t].(stage := stage)]
  }

  /** Unlocks the token mutex and goes on to the destructor of the token holder. */
  ghost function Unlock(s: State, t: Name): State
    requires t in s.calls && s.calls[t].token in s.tokens
  {
    var k := s.calls[t].token;
    s.(tokens := s.tokens[k := s.tokens[k].(owner := None)], calls := SetStage(s, t, Leaving))
  }

  ghost function AddHolder(s: State, h: Name, r: Name): State
    requires r in s.cache.meta
  {
    s.(cache := Hold(s.cache, r), holders := s.holders[h := r], ptrs := s.ptrs[h := 1], used := s.used + {h})
  }

  ghost function DoBegin(s: State, t: Name, key: Key, token: Name, holder: Name): (State, Event)
    requires Inv(s)
  {
    if key in s.cache.keys then
      (AddHolder(s, holder, s.cache.keys[key]), Returned(key, Some(holder)))
    else
      var k := if key in s.insertTokens then s.insertTokens[key] else token;
      var tokens := if key in s.insertTokens then s.tokens else s.tokens[k := Token(key, false, None, 0, None)];
      (s.(tokens := tokens[k := tokens[k].(refcount := tokens[k].refcount + 1)],
          insertTokens := s.insertTokens[key := k],
          calls := s.calls[t := Call(key, k, false, Waiting)]), Internal)
  }

  ghost function DoLockToken(s: State, t: Name): (State, Event)
    requires Inv(s) && t in s.calls
  {
    var k := s.calls[t].token;
    var call := s.calls[t].(cleaned := s.tokens[k].cleaned);
    if s.tokens[k].value.Some? then
      var h := s.tokens[k].value.value;
      (s.(ptrs := s.ptrs[h := s.ptrs[h] + 1], calls := s.calls[t := call.(stage := Leaving)]),
       Returned(call.key, Some(h)))
    else
      (s.(tokens := s.tokens[k := s.tokens[k].(owner := Some(t))], calls := s.calls[t := call.(stage := Sizing)]), Internal)
  }

  ghost function DoGetSize(s: State, t: Name, result: Option<nat>): (State, Event)
    requires Inv(s) && t in s.calls
  {
    match result
    case None => (Unlock(s, t), Threw(s.calls[t].key))
    case Some(size) => (s.(calls := SetStage(s, t, Allocating(size))), Internal)
  }

  ghost function DoAllocate(s: State, t: Name, mapping: int, whole: Name, novel: Name): (State, Event)
    requires Inv(s) && Enabled(s, AllocateRegion(t, mapping, whole, novel))
  {
    var (c, res) := Allocate(s.cache, s.calls[t].stage.size, mapping, whole, novel);
    AllocateResult(s.cache, s.calls[t].stage.size, mapping, whole, novel);
    if res.None? then (Unlock(s.(cache := c), t), Returned(s.calls[t].key, None))
    else
      (s.(cache := SetKey(c, res.value, s.calls[t].key), calls := SetStage(s, t, Filling(res.value))), Internal)
  }

  ghost function DoInitialize(s: State, t: Name, ok: bool, holder: Name): (State, Event)
    requires Inv(s) && Enabled(s, Initialize(t, ok, holder))
  {
    var r, key, k := s.calls[t].stage.region, s.calls[t].key, s.calls[t].token;
    if !ok then
      (Unlock(s.(cache := FreeRegion(s.cache, r), leaked := s.leaked + s.cache.meta[r].size), t), Threw(key))
    else
      var s1 := AddHolder(s, holder, r);
      var registered := key in s.insertTokens && s.insertTokens[key] == k;
      var s2 := if registered then s1.(cache := Publish(s1.cache, r, key)) else s1;
      var token := s.tokens[k].(value := Some(holder));
      var s3 :=
        if token.cleaned then s2.(tokens := s2.tokens[k := token])
        else s2.(tokens := s2.tokens[k := token.(cleaned := true)], insertTokens := s2.insertTokens - {key},
                 calls := s2.calls[t := s2.calls[t].(cleaned := true)]);
      (Unlock(s3, t), Returned(key, Some(holder)))
  }

  ghost function DoLeave(s: State, t: Name): (State, Event)
    requires Inv(s) && t in s.calls
  {
    var key, k := s.calls[t].key, s.calls[t].token;
    var s1 := s.(calls := s.calls - {t});
    if s.calls[t].cleaned || s.tokens[k].cleaned then (s1, Internal)
    else
      var token := s.tokens[k].(refcount := s.tokens[k].refcount - 1);
      if token.refcount > 0 then (s1.(tokens := s.tokens[k := token]), Internal)
      else (s1.(tokens := s.tokens[k := token.(cleaned := true)], insertTokens := s.insertTokens - {key}), Internal)
  }

  ghost function DoDestroy(s: State, h: Name): (State, Event)
    requires Inv(s) && h in s.holders && s.cache.meta[s.holders[h]].refcount > 0
  {
    (s.(cache := Unhold(s.cache, s.holders[h]), holders := s.holders - {h}, ptrs := s.ptrs - {h}), Internal)
  }

  lemma HolderPins(meta: map<Name, Meta>, holders: map<Name, Name>, h: Name)
    requires Counted(meta, holders) && h in holders
    ensures holders[h] in meta && meta[holders[h]].refcount > 0
  {
    assert h in HoldersOf(holders, holders[h]);
  }

  lemma HolderDestroyable(s: State, h: Name)
    requires Inv(s) && Enabled(s, DestroyHolder(h))
    ensures h in s.holders && s.holders[h] in s.cache.meta && s.cache.meta[s.holders[h]].refcount > 0
  {
    hide Valid, Registered, Called, Filled, Owned, HeldBytes, Drift;
    HolderPins(s.cache.meta, s.holders, h);
  }

  ghost function Apply(s: State, step: Step): (State, Event)
    requires Inv(s) && Enabled(s, step)
  {
    match step
    case Begin(t, key, token, holder) => DoBegin(s, t, key, token, holder)
    case LockToken(t) => DoLockToken(s, t)
    case GetSize(t, result) => DoGetSize(s, t, result)
    case AllocateRegion(t, mapping, whole, novel) => DoAllocate(s, t, mapping, whole, novel)
    case Initialize(t, ok, holder) => DoInitialize(s, t, ok, holder)
    case Leave(t) => DoLeave(s, t)
    case CopyPtr(h) => (s.(ptrs := s.ptrs[h := s.ptrs[h] + 1]), Internal)
    case DropPtr(h) => (s.(ptrs := s.ptrs[h := s.ptrs[h] - 1]), Internal)
    case DestroyHolder(h) => HolderDestroyable(s, h); DoDestroy(s, h)
  }
}
