/** Every step of the `getOrSet` protocol keeps the invariant. */
module CacheProtocolProof {
  import opened Lists
  import opened Tape
  import opened CacheRegions
  import opened CacheAllocate
  import opened CacheTheorems
  import opened CacheAccounting
  import opened CacheHolders
  import opened CacheProtocol

  // ---------- Counting ----------

  lemma CountedHold(meta: map<Name, Meta>, holders: map<Name, Name>, h: Name, r: Name, m: Meta)
    requires Counted(meta, holders) && r in meta && h !in holders && m.refcount == meta[r].refcount + 1
    ensures Counted(meta[r := m], holders[h := r])
  {
    var holders' := holders[h := r];
    assert HoldersOf(holders', r) == HoldersOf(holders, r) + {h};
    forall x | x in meta && x != r ensures HoldersOf(holders', x) == HoldersOf(holders, x) {}
  }

  lemma CountedUnhold(meta: map<Name, Meta>, holders: map<Name, Name>, h: Name, m: Meta)
    requires Counted(meta, holders) && h in holders && m.refcount == meta[holders[h]].refcount - 1
    ensures Counted(meta[holders[h] := m], holders - {h})
  {
    var r, holders' := holders[h], holders - {h};
    assert h in HoldersOf(holders, r);
    assert HoldersOf(holders', r) == HoldersOf(holders, r) - {h};
    forall x | x in meta && x != r ensures HoldersOf(holders', x) == HoldersOf(holders, x) {}
  }

  /** Held regions are the same in both. */
  ghost predicate KeepsHeld(meta: map<Name, Meta>, meta': map<Name, Meta>) {
    && (forall x | x in meta && meta[x].refcount > 0 :: x in meta' && meta'[x] == meta[x])
    && (forall x | x in meta' && meta'[x].refcount > 0 :: x in meta && meta[x].refcount > 0)
  }

  lemma CountedKeeps(meta: map<Name, Meta>, meta': map<Name, Meta>, holders: map<Name, Name>)
    requires Counted(meta, holders) && KeepsHeld(meta, meta')
    ensures Counted(meta', holders)
  {
    forall h | h in holders ensures holders[h] in meta' && meta'[holders[h]] == meta[holders[h]] {
      HolderPins(meta, holders, h);
    }
    forall r | r in meta' ensures meta'[r].refcount == |HoldersOf(holders, r)| {
      if meta'[r].refcount == 0 {
        assert HoldersOf(holders, r) == {};
      }
    }
  }

  lemma {:induction false} HeldBytesFrame(hs: set<Name>, holders: map<Name, Name>, meta: map<Name, Meta>,
                                          holders': map<Name, Name>, meta': map<Name, Meta>)
    requires forall h | h in hs :: h in holders && holders[h] in meta
    requires forall h | h in hs :: h in holders' && holders'[h] == holders[h] && holders[h] in meta'
                                   && meta'[holders[h]].size == meta[holders[h]].size
    ensures HeldBytes(hs, holders', meta') == HeldBytes(hs, holders, meta)
  {
    if hs != {} {
      var h :| h in hs && HeldBytes(hs, holders, meta) == meta[holders[h]].size + HeldBytes(hs - {h}, holders, meta);
      HeldBytesRemove(hs, h, holders', meta');
      HeldBytesFrame(hs - {h}, holders, meta, holders', meta');
    }
  }

  lemma {:induction false} HeldBytesRemove(hs: set<Name>, h: Name, holders: map<Name, Name>, meta: map<Name, Meta>)
    requires h in hs && forall x | x in hs :: x in holders && holders[x] in meta
    ensures HeldBytes(hs, holders, meta) == meta[holders[h]].size + HeldBytes(hs - {h}, holders, meta)
  {
    var g :| g in hs && HeldBytes(hs, holders, meta) == meta[holders[g]].size + HeldBytes(hs - {g}, holders, meta);
    if g != h {
      HeldBytesRemove(hs - {g}, h, holders, meta);
      HeldBytesRemove(hs - {h}, g, holders, meta);
      assert hs - {g} - {h} == hs - {h} - {g};
    }
  }

  lemma UsersSame(calls: map<Name, Call>, t: Name, call: Call, k: Name)
    requires t in calls && call.token == calls[t].token
    ensures Users(calls[t := call], k) == Users(calls, k)
  {
  }

  lemma UsersAdd(calls: map<Name, Call>, t: Name, call: Call, k: Name)
    requires t !in calls
    ensures Users(calls[t := call], k) == Users(calls, k) + if call.token == k then {t} else {}
    ensures |Users(calls[t := call], k)| == |Users(calls, k)| + if call.token == k then 1 else 0
  {
    assert Users(calls[t := call], k) == Users(calls, k) + if call.token == k then {t} else {};
  }

  lemma UsersRemove(calls: map<Name, Call>, t: Name, k: Name)
    requires t in calls
    ensures Users(calls - {t}, k) == Users(calls, k) - {t}
    ensures |Users(calls - {t}, k)| == |Users(calls, k)| - if calls[t].token == k then 1 else 0
  {
    assert Users(calls - {t}, k) == Users(calls, k) - {t};
    assert calls[t].token == k <==> t in Users(calls, k);
  }

  // ---------- Parts of the invariant ----------

  /** The regions and the holders. */
  ghost predicate Sound(s: State) {
    && Valid(s.cache) && Counted(s.cache.meta, s.holders)
    && s.cache.totalInUse == HeldBytes(s.holders.Keys, s.holders, s.cache.meta)
    && Drift(s.cache) == s.leaked && s.ptrs.Keys == s.holders.Keys <= s.used
  }

  /** The tokens and the calls. */
  ghost predicate Orderly(s: State) {
    && Registered(s.tokens, s.insertTokens, s.calls) && Called(s.tokens, s.calls)
    && s.cache.keys.Keys !! s.insertTokens.Keys
  }

  lemma InvParts(s: State)
    ensures Inv(s) <==> Sound(s) && Orderly(s) && Filled(s.cache.meta, s.calls) && Owned(s.cache.meta, s.calls) && Valued(s)
  {
    hide Valid, Counted, Registered, Called, Filled, Owned, Drift, HeldBytes;
  }

  lemma HeldBytesAdd(holders: map<Name, Name>, meta: map<Name, Meta>, h: Name, r: Name, meta': map<Name, Meta>)
    requires h !in holders && r in meta' && forall x | x in holders :: holders[x] in meta
    requires forall x | x in meta :: x in meta' && meta'[x].size == meta[x].size
    ensures HeldBytes(holders[h := r].Keys, holders[h := r], meta')
         == HeldBytes(holders.Keys, holders, meta) + meta'[r].size
  {
    var holders' := holders[h := r];
    assert holders'.Keys - {h} == holders.Keys;
    HeldBytesRemove(holders'.Keys, h, holders', meta');
    HeldBytesFrame(holders.Keys, holders, meta, holders', meta');
  }

  lemma HeldBytesDrop(holders: map<Name, Name>, meta: map<Name, Meta>, h: Name, meta': map<Name, Meta>)
    requires h in holders && forall x | x in holders :: holders[x] in meta
    requires forall x | x in meta :: x in meta' && meta'[x].size == meta[x].size
    ensures HeldBytes((holders - {h}).Keys, holders - {h}, meta')
         == HeldBytes(holders.Keys, holders, meta) - meta[holders[h]].size
  {
    var holders' := holders - {h};
    assert holders.Keys - {h} == holders'.Keys;
    HeldBytesRemove(holders.Keys, h, holders, meta);
    HeldBytesFrame(holders'.Keys, holders, meta, holders', meta');
  }

  lemma AddHolderSound(s: State, h: Name, r: Name)
    requires Sound(s) && r in s.cache.meta && !s.cache.meta[r].isFree && h !in s.used
    ensures Sound(AddHolder(s, h, r))
  {
    hide Valid, Drift, HeldBytes;
    var c' := Hold(s.cache, r);
    HoldValid(s.cache, r);
    CountedHold(s.cache.meta, s.holders, h, r, c'.meta[r]);
    HeldBytesAdd(s.holders, s.cache.meta, h, r, c'.meta);
  }

  lemma DestroySound(s: State, h: Name)
    requires Sound(s) && h in s.holders
    requires s.holders[h] in s.cache.meta && s.cache.meta[s.holders[h]].refcount > 0
    ensures Sound(s.(cache := Unhold(s.cache, s.holders[h]), holders := s.holders - {h}, ptrs := s.ptrs - {h}))
  {
    hide Valid, Drift, HeldBytes;
    var c' := Unhold(s.cache, s.holders[h]);
    UnholdValid(s.cache, s.holders[h]);
    CountedUnhold(s.cache.meta, s.holders, h, c'.meta[s.holders[h]]);
    HeldBytesDrop(s.holders, s.cache.meta, h, c'.meta);
  }

  /** A change of the regions that leaves the held ones alone. */
  lemma RegionsSound(s: State, c: Cache<Name>, leaked: nat)
    requires Sound(s) && Valid(c) && KeepsHeld(s.cache.meta, c.meta)
    requires c.totalInUse == s.cache.totalInUse && Drift(c) == leaked
    ensures Sound(s.(cache := c, leaked := leaked))
  {
    hide Valid, Drift;
    CountedKeeps(s.cache.meta, c.meta, s.holders);
    forall h | h in s.holders ensures s.holders[h] in c.meta && c.meta[s.holders[h]] == s.cache.meta[s.holders[h]] {
      HolderPins(s.cache.meta, s.holders, h);
    }
    hide Counted;
    HeldBytesFrame(s.holders.Keys, s.holders, s.cache.meta, s.holders, c.meta);
  }

  // ---------- Tokens and calls ----------

  lemma JoinRegistered(tokens: map<Name, Token>, ins: map<Key, Name>, calls: map<Name, Call>, t: Name, key: Key)
    requires Registered(tokens, ins, calls) && key in ins && t !in calls
    ensures var k := ins[key];
            && k in tokens && tokens[k].value == None && tokens[k].key == key && !tokens[k].cleaned
            && Registered(tokens[k := tokens[k].(refcount := tokens[k].refcount + 1)], ins,
                          calls[t := Call(key, k, false, Waiting)])
  {
    var call := Call(key, ins[key], false, Waiting);
    forall k | k in tokens ensures |Users(calls[t := call], k)| == |Users(calls, k)| + if ins[key] == k then 1 else 0 {
      UsersAdd(calls, t, call, k);
    }
    hide Users;
  }

  /** A waiting call is added to a token that is not cleaned up. */
  lemma JoinCalled(tokens: map<Name, Token>, calls: map<Name, Call>, t: Name, k: Name, token: Token)
    requires Called(tokens, calls) && t !in calls
    requires if k in tokens then token == tokens[k].(refcount := token.refcount) else token.owner == None
    requires !token.cleaned
    ensures Called(tokens[k := token], calls[t := Call(token.key, k, false, Waiting)])
  {
  }

  lemma JoinToken(tokens: map<Name, Token>, ins: map<Key, Name>, calls: map<Name, Call>, t: Name, key: Key)
    requires Registered(tokens, ins, calls) && Called(tokens, calls) && key in ins && t !in calls
    ensures var k := ins[key];
            && k in tokens && tokens[k].value == None
            && var tokens' := tokens[k := tokens[k].(refcount := tokens[k].refcount + 1)];
               var calls' := calls[t := Call(key, k, false, Waiting)];
               Registered(tokens', ins, calls') && Called(tokens', calls')
  {
    hide Registered, Called;
    JoinRegistered(tokens, ins, calls, t, key);
    var k := ins[key];
    JoinCalled(tokens, calls, t, k, tokens[k].(refcount := tokens[k].refcount + 1));
  }

  lemma NewToken(tokens: map<Name, Token>, ins: map<Key, Name>, calls: map<Name, Call>, t: Name, key: Key, k: Name)
    requires Registered(tokens, ins, calls) && Called(tokens, calls) && key !in ins && k !in tokens && t !in calls
    ensures var tokens' := tokens[k := Token(key, false, None, 1, None)];
            var calls' := calls[t := Call(key, k, false, Waiting)];
            Registered(tokens', ins[key := k], calls') && Called(tokens', calls')
  {
    var call := Call(key, k, false, Waiting);
    JoinCalled(tokens, calls, t, k, Token(key, false, None, 1, None));
    assert Users(calls, k) == {};
    hide Called;
    forall x | x in tokens || x == k ensures |Users(calls[t := call], x)| == |Users(calls, x)| + if x == k then 1 else 0 {
      UsersAdd(calls, t, call, x);
    }
    hide Users;
  }

  lemma FilledKeeps(meta: map<Name, Meta>, meta': map<Name, Meta>, calls: map<Name, Call>)
    requires Filled(meta, calls)
    requires forall x | x in meta && meta[x].Pending() :: x in meta' && meta'[x] == meta[x]
    ensures Filled(meta', calls)
  {
  }

  lemma OwnedKeeps(meta: map<Name, Meta>, meta': map<Name, Meta>, calls: map<Name, Call>)
    requires Owned(meta, calls)
    requires forall x | x in meta' && meta'[x].Pending() :: x in meta && meta[x].Pending()
    ensures Owned(meta', calls)
  {
  }

  /** One call changes; if it was filling a region, that region is pending no more. */
  lemma OwnedMove(meta: map<Name, Meta>, meta': map<Name, Meta>, calls: map<Name, Call>, t: Name, calls': map<Name, Call>)
    requires Owned(meta, calls)
    requires forall x | x in meta' && meta'[x].Pending() ::
               || (x in meta && meta[x].Pending() && (t in calls ==> calls[t].stage != Filling(x)))
               || (t in calls' && calls'[t].stage == Filling(x))
    requires forall u | u in calls && u != t :: u in calls' && calls'[u] == calls[u]
    ensures Owned(meta', calls')
  {
    forall r | r in meta' && meta'[r].Pending() ensures exists u :: u in calls' && calls'[u].stage == Filling(r) {
      if r in meta && meta[r].Pending() && (t in calls ==> calls[t].stage != Filling(r)) {
        var u :| u in calls && calls[u].stage == Filling(r);
        assert u in calls' && calls'[u].stage == Filling(r);
      }
    }
  }

  /** Values of tokens in use stay live when holders are only added and keep their keys. */
  lemma ValuedKeeps(s: State, s': State)
    requires Valued(s) && s'.tokens == s.tokens && s'.calls == s.calls && s'.ptrs.Keys == s'.holders.Keys <= s'.used
    requires forall h | h in s.holders :: h in s'.holders && s'.holders[h] == s.holders[h]
    requires forall h | h in s.holders && s.holders[h] in s.cache.meta ::
               s.holders[h] in s'.cache.meta && s'.cache.meta[s.holders[h]].key == s.cache.meta[s.holders[h]].key
    ensures Valued(s')
  {
  }

  // ---------- Begin ----------

  lemma KeyedRegion(c: Cache<Name>, key: Key)
    requires Valid(c) && key in c.keys
    ensures c.keys[key] in c.meta && !c.meta[c.keys[key]].isFree && !c.meta[c.keys[key]].Pending()
    ensures c.meta[c.keys[key]].key == Some(key)
  {
  }

  lemma BeginHit(s: State, t: Name, key: Key, token: Name, holder: Name)
    requires Inv(s) && Enabled(s, Begin(t, key, token, holder)) && key in s.cache.keys
    ensures Inv(DoBegin(s, t, key, token, holder).0)
  {
    hide Valid, Counted, Registered, Called, Filled, Owned, Valued, HeldBytes, Drift;
    InvParts(s);
    KeyedRegion(s.cache, key);
    var s' := AddHolder(s, holder, s.cache.keys[key]);
    AddHolderSound(s, holder, s.cache.keys[key]);
    FilledKeeps(s.cache.meta, s'.cache.meta, s.calls);
    OwnedKeeps(s.cache.meta, s'.cache.meta, s.calls);
    ValuedKeeps(s, s');
    InvParts(s');
  }

  lemma BeginMiss(s: State, t: Name, key: Key, token: Name, holder: Name)
    requires Inv(s) && Enabled(s, Begin(t, key, token, holder)) && key !in s.cache.keys
    ensures Inv(DoBegin(s, t, key, token, holder).0)
  {
    hide Valid, Counted, Registered, Called, Owned, HeldBytes, Drift, Users;
    InvParts(s);
    var s' := DoBegin(s, t, key, token, holder).0;
    if key in s.insertTokens {
      JoinToken(s.tokens, s.insertTokens, s.calls, t, key);
      assert s'.insertTokens == s.insertTokens;
    } else {
      NewToken(s.tokens, s.insertTokens, s.calls, t, key, token);
      assert s'.tokens == s.tokens[token := Token(key, false, None, 1, None)];
    }
    assert Valued(s');
    OwnedMove(s.cache.meta, s.cache.meta, s.calls, t, s'.calls);
    InvParts(s');
  }

  // ---------- LockToken ----------

  /** The call moves on; its token and everyone else's stay. */
  lemma MoveCall(tokens: map<Name, Token>, ins: map<Key, Name>, calls: map<Name, Call>, t: Name, call: Call, token: Token)
    requires Registered(tokens, ins, calls) && t in calls && call.token == calls[t].token && call.token in tokens
    requires token == tokens[call.token].(owner := token.owner)
    ensures Registered(tokens[call.token := token], ins, calls[t := call])
  {
    forall k | k in tokens ensures Users(calls[t := call], k) == Users(calls, k) {
      UsersSame(calls, t, call, k);
    }
    hide Users;
  }

  /** The thread becomes the owner of the token. */
  lemma OwnCalled(tokens: map<Name, Token>, calls: map<Name, Call>, t: Name)
    requires Called(tokens, calls) && t in calls && calls[t].stage.Waiting?
    requires tokens[calls[t].token].owner == None && tokens[calls[t].token].value == None
    ensures var k := calls[t].token;
            && !tokens[k].cleaned
            && Called(tokens[k := tokens[k].(owner := Some(t))], calls[t := calls[t].(cleaned := false, stage := Sizing)])
  {
  }

  /** The thread finds a value and goes on to leave. */
  lemma FoundCalled(tokens: map<Name, Token>, calls: map<Name, Call>, t: Name)
    requires Called(tokens, calls) && t in calls && calls[t].stage.Waiting?
    ensures Called(tokens, calls[t := calls[t].(cleaned := tokens[calls[t].token].cleaned, stage := Leaving)])
  {
  }

  lemma LockOwns(s: State, t: Name)
    requires Inv(s) && Enabled(s, LockToken(t)) && s.tokens[s.calls[t].token].value == None
    ensures Inv(DoLockToken(s, t).0)
  {
    hide Valid, Counted, Registered, Called, Owned, HeldBytes, Drift, Users;
    InvParts(s);
    var s', k := DoLockToken(s, t).0, s.calls[t].token;
    TokenPresent(s, t);
    OwnCalled(s.tokens, s.calls, t);
    MoveCall(s.tokens, s.insertTokens, s.calls, t, s'.calls[t], s'.tokens[k]);
    OwnedMove(s.cache.meta, s.cache.meta, s.calls, t, s'.calls);
    InvParts(s');
  }

  lemma LockReturns(s: State, t: Name)
    requires Inv(s) && Enabled(s, LockToken(t)) && s.tokens[s.calls[t].token].value.Some?
    ensures Inv(DoLockToken(s, t).0)
  {
    hide Valid, Counted, Registered, Called, Owned, HeldBytes, Drift, Users;
    InvParts(s);
    var s', k := DoLockToken(s, t).0, s.calls[t].token;
    TokenPresent(s, t);
    FoundCalled(s.tokens, s.calls, t);
    MoveCall(s.tokens, s.insertTokens, s.calls, t, s'.calls[t], s.tokens[k]);
    assert s.tokens[k := s.tokens[k]] == s.tokens;
    OwnedMove(s.cache.meta, s.cache.meta, s.calls, t, s'.calls);
    InvParts(s');
  }

  lemma TokenPresent(s: State, t: Name)
    requires Inv(s) && t in s.calls
    ensures s.calls[t].token in s.tokens
  {
    hide Valid, Counted, Registered, Filled, Owned, Valued, HeldBytes, Drift;
  }

  lemma LockTokenInv(s: State, t: Name)
    requires Inv(s) && Enabled(s, LockToken(t))
    ensures Inv(DoLockToken(s, t).0)
  {
    hide Inv;
    TokenPresent(s, t);
    if s.tokens[s.calls[t].token].value.Some? { LockReturns(s, t); } else { LockOwns(s, t); }
  }

  // ---------- GetSize ----------

  lemma UnlockCalled(tokens: map<Name, Token>, calls: map<Name, Call>, t: Name)
    requires Called(tokens, calls) && t in calls && calls[t].stage.Computing()
    ensures var k := calls[t].token;
            Called(tokens[k := tokens[k].(owner := None)], calls[t := calls[t].(stage := Leaving)])
  {
  }

  lemma StageCalled(tokens: map<Name, Token>, calls: map<Name, Call>, t: Name, stage: Stage)
    requires Called(tokens, calls) && t in calls && calls[t].stage.Computing() && stage.Computing()
    ensures Called(tokens, calls[t := calls[t].(stage := stage)])
  {
  }

  lemma UnlockOrderly(s: State, t: Name)
    requires Orderly(s) && t in s.calls && s.calls[t].stage.Computing()
    ensures s.calls[t].token in s.tokens && Orderly(Unlock(s, t))
    ensures Filled(s.cache.meta, s.calls) ==> Filled(s.cache.meta, Unlock(s, t).calls)
    ensures Valued(s) ==> Valued(Unlock(s, t))
  {
    var k := s.calls[t].token;
    assert k in s.tokens;
    UnlockCalled(s.tokens, s.calls, t);
    MoveCall(s.tokens, s.insertTokens, s.calls, t, s.calls[t].(stage := Leaving), s.tokens[k].(owner := None));
    hide Registered, Called;
  }

  lemma StageOrderly(s: State, t: Name, stage: Stage)
    requires Orderly(s) && t in s.calls && s.calls[t].stage.Computing() && stage.Computing()
    ensures Orderly(s.(calls := SetStage(s, t, stage)))
  {
    var k := s.calls[t].token;
    assert k in s.tokens;
    StageCalled(s.tokens, s.calls, t, stage);
    MoveCall(s.tokens, s.insertTokens, s.calls, t, s.calls[t].(stage := stage), s.tokens[k]);
    assert s.tokens[k := s.tokens[k]] == s.tokens;
    hide Registered, Called;
  }

  lemma GetSizeInv(s: State, t: Name, result: Option<nat>)
    requires Inv(s) && Enabled(s, GetSize(t, result))
    ensures Inv(DoGetSize(s, t, result).0)
  {
    hide Valid, Counted, Registered, Called, Owned, HeldBytes, Drift;
    InvParts(s);
    var s' := DoGetSize(s, t, result).0;
    if result.None? {
      UnlockOrderly(s, t);
    } else {
      StageOrderly(s, t, Allocating(result.value));
    }
    OwnedMove(s.cache.meta, s.cache.meta, s.calls, t, s'.calls);
    InvParts(s');
  }

  // ---------- AllocateRegion ----------

  lemma ValidStates(c: Cache<Name>)
    requires Valid(c)
    ensures States(c.meta)
  {
  }

  /** Valued and KeepsHeld: the keys of held regions do not change. */
  lemma ValuedRegions(s: State, c: Cache<Name>, leaked: nat)
    requires Valued(s) && Counted(s.cache.meta, s.holders) && KeepsHeld(s.cache.meta, c.meta)
    ensures Valued(s.(cache := c, leaked := leaked))
  {
    forall h | h in s.holders ensures s.holders[h] in c.meta && c.meta[s.holders[h]] == s.cache.meta[s.holders[h]] {
      HolderPins(s.cache.meta, s.holders, h);
    }
    hide Counted;
    ValuedKeeps(s, s.(cache := c, leaked := leaked));
  }

  /** A new cache state with the same held and pending regions and no new keys. */
  lemma RegionsInv(s: State, c: Cache<Name>, leaked: nat)
    requires Inv(s) && Valid(c) && KeepsHeld(s.cache.meta, c.meta)
    requires c.totalInUse == s.cache.totalInUse && Drift(c) == leaked && KeysShrink(s.cache.keys, c.keys)
    ensures var s' := s.(cache := c, leaked := leaked);
            Sound(s') && Orderly(s') && Valued(s')
  {
    hide Valid, Registered, Called, Filled, HeldBytes, Drift;
    InvParts(s);
    RegionsSound(s, c, leaked);
    ValuedRegions(s, c, leaked);
    forall key | key in c.keys.Keys ensures key !in s.insertTokens.Keys {
      assert key in s.cache.keys.Keys;
    }
  }

  lemma RefusedKeeps(meta: map<Name, Meta>, meta': map<Name, Meta>)
    requires KeepsPinned(meta, meta') && States(meta) && States(meta')
    ensures KeepsHeld(meta, meta')
    ensures forall x | x in meta && meta[x].Pending() :: x in meta' && meta'[x] == meta[x]
    ensures forall x | x in meta' && meta'[x].Pending() :: x in meta && meta[x].Pending()
  {
  }

  lemma GrantedKeeps(meta: map<Name, Meta>, meta': map<Name, Meta>, n: Name, size: nat, m: Meta)
    requires Granted(meta, meta', n, size) && States(meta) && States(meta') && m.Pending()
    ensures KeepsHeld(meta, meta'[n := m])
    ensures forall x | x in meta && meta[x].Pending() :: x != n && x in meta' && meta'[x] == meta[x]
    ensures forall x | x in meta' && meta'[x].Pending() && x != n :: x in meta && meta[x].Pending()
  {
  }

  lemma FilledAdd(meta: map<Name, Meta>, meta': map<Name, Meta>, calls: map<Name, Call>, t: Name, n: Name)
    requires Filled(meta, calls) && t in calls && !calls[t].stage.Filling?
    requires forall x | x in meta && meta[x].Pending() :: x != n && x in meta' && meta'[x] == meta[x]
    requires n in meta' && meta'[n].Pending() && meta'[n].key == Some(calls[t].key)
    ensures Filled(meta', calls[t := calls[t].(stage := Filling(n))])
  {
  }

  lemma AllocateRefused(s: State, t: Name, mapping: int, whole: Name, novel: Name)
    requires Inv(s) && Enabled(s, AllocateRegion(t, mapping, whole, novel))
    requires Allocate(s.cache, s.calls[t].stage.size, mapping, whole, novel).1.None?
    ensures Inv(DoAllocate(s, t, mapping, whole, novel).0)
  {
    hide Valid, Counted, Registered, Called, Filled, Owned, Valued, HeldBytes, Drift, Allocate, Names, CanMap, KeepsPinned;
    InvParts(s);
    var size := s.calls[t].stage.size;
    var c := Allocate(s.cache, size, mapping, whole, novel).0;
    AllocateResult(s.cache, size, mapping, whole, novel);
    AllocateDrift(s.cache, size, mapping, whole, novel);
    ValidStates(s.cache);
    ValidStates(c);
    RefusedKeeps(s.cache.meta, c.meta);
    RegionsInv(s, c, s.leaked);
    FilledKeeps(s.cache.meta, c.meta, s.calls);
    UnlockOrderly(s.(cache := c), t);
    OwnedMove(s.cache.meta, c.meta, s.calls, t, Unlock(s.(cache := c), t).calls);
    InvParts(Unlock(s.(cache := c), t));
  }

  lemma AllocateGranted(s: State, t: Name, mapping: int, whole: Name, novel: Name)
    requires Inv(s) && Enabled(s, AllocateRegion(t, mapping, whole, novel))
    requires Allocate(s.cache, s.calls[t].stage.size, mapping, whole, novel).1.Some?
    ensures Inv(DoAllocate(s, t, mapping, whole, novel).0)
  {
    hide Valid, Counted, Registered, Called, Filled, Owned, Valued, HeldBytes, Drift, Allocate, Names, CanMap;
    InvParts(s);
    var size := s.calls[t].stage.size;
    var (c, res) := Allocate(s.cache, size, mapping, whole, novel);
    AllocateResult(s.cache, size, mapping, whole, novel);
    AllocateDrift(s.cache, size, mapping, whole, novel);
    var n, key := res.value, s.calls[t].key;
    ValidStates(s.cache);
    ValidStates(c);
    var c' := SetKey(c, n, key);
    SetKeyValid(c, n, key);
    GrantedKeeps(s.cache.meta, c.meta, n, RoundUp(size, ALIGNMENT), c'.meta[n]);
    hide Granted, States, KeepsHeld;
    RegionsInv(s, c', s.leaked);
    FilledAdd(s.cache.meta, c'.meta, s.calls, t, n);
    StageOrderly(s.(cache := c'), t, Filling(n));
    var s' := s.(cache := c', calls := SetStage(s, t, Filling(n)));
    StageValued(s.(cache := c'), t, Filling(n));
    OwnedMove(s.cache.meta, c'.meta, s.calls, t, s'.calls);
    InvParts(s');
  }

  lemma StageValued(s: State, t: Name, stage: Stage)
    requires Valued(s) && t in s.calls
    ensures Valued(s.(calls := SetStage(s, t, stage)))
  {
  }

  // ---------- Initialize ----------

  lemma FilledDrop(meta: map<Name, Meta>, meta': map<Name, Meta>, calls: map<Name, Call>, t: Name, call: Call)
    requires Filled(meta, calls) && t in calls && calls[t].stage.Filling? && call.stage.Leaving?
    requires forall x | x in meta && meta[x].Pending() && x != calls[t].stage.region :: x in meta' && meta'[x] == meta[x]
    ensures Filled(meta', calls[t := call])
  {
  }

  lemma FreedKeeps(meta: map<Name, Meta>, meta': map<Name, Meta>, r: Name)
    requires OnlyGrows(meta, meta', r) && States(meta) && States(meta') && meta[r].Pending() && meta'[r].isFree
    ensures KeepsHeld(meta, meta')
    ensures forall x | x in meta && meta[x].Pending() && x != r :: x in meta' && meta'[x] == meta[x]
    ensures forall x | x in meta' && meta'[x].Pending() :: x != r && x in meta && meta[x].Pending()
  {
  }

  lemma FillingCall(s: State, t: Name)
    requires Inv(s) && t in s.calls && s.calls[t].stage.Filling?
    ensures var r, k := s.calls[t].stage.region, s.calls[t].token;
            && r in s.cache.meta && s.cache.meta[r].Pending() && s.cache.meta[r].key == Some(s.calls[t].key)
            && k in s.tokens && s.tokens[k].key == s.calls[t].key
  {
    hide Valid, Counted, Registered, Owned, Valued, HeldBytes, Drift;
  }

  lemma InitializeThrows(s: State, t: Name, holder: Name)
    requires Inv(s) && Enabled(s, Initialize(t, false, holder))
    ensures Inv(DoInitialize(s, t, false, holder).0)
  {
    hide Valid, Counted, Registered, Called, Filled, Owned, Valued, HeldBytes, Drift, FreeRegion;
    var r := s.calls[t].stage.region;
    FillingCall(s, t);
    InvParts(s);
    var c := FreeRegion(s.cache, r);
    var leaked := s.leaked + s.cache.meta[r].size;
    FreeRegionDrift(s.cache, r);
    ValidStates(s.cache);
    ValidStates(c);
    FreedKeeps(s.cache.meta, c.meta, r);
    hide States, KeepsHeld, OnlyGrows;
    RegionsInv(s, c, leaked);
    var s1 := s.(cache := c, leaked := leaked);
    UnlockOrderly(s1, t);
    FilledDrop(s.cache.meta, c.meta, s.calls, t, s.calls[t].(stage := Leaving));
    OwnedMove(s.cache.meta, c.meta, s.calls, t, Unlock(s1, t).calls);
    InvParts(Unlock(s1, t));
  }

  /** A computing call leaves its value in the token and unregisters the token. */
  lemma FinishToken(tokens: map<Name, Token>, ins: map<Key, Name>, calls: map<Name, Call>, t: Name, h: Name)
    requires Registered(tokens, ins, calls) && Called(tokens, calls) && t in calls && calls[t].stage.Computing()
    ensures var key, k := calls[t].key, calls[t].token;
            var tokens' := tokens[k := tokens[k].(value := Some(h), cleaned := true, owner := None)];
            var calls' := calls[t := calls[t].(cleaned := true, stage := Leaving)];
            && key in ins && ins[key] == k && !tokens[k].cleaned
            && Registered(tokens', ins - {key}, calls') && Called(tokens', calls')
  {
    var call := calls[t].(cleaned := true, stage := Leaving);
    forall k | k in tokens ensures Users(calls[t := call], k) == Users(calls, k) {
      UsersSame(calls, t, call, k);
    }
    hide Users;
  }

  lemma FinishValued(s: State, s': State, t: Name, h: Name, r: Name)
    requires Valued(s) && Called(s.tokens, s.calls) && t in s.calls && h !in s.holders
    requires var k := s.calls[t].token;
             && s'.tokens.Keys == s.tokens.Keys && s'.tokens[k].value == Some(h)
             && (forall x | x in s.tokens && x != k :: s'.tokens[x] == s.tokens[x])
             && s'.calls.Keys == s.calls.Keys
             && (forall u | u in s.calls :: s'.calls[u].token == s.calls[u].token && s'.calls[u].key == s.calls[u].key)
    requires s'.holders == s.holders[h := r] && s'.ptrs.Keys == s'.holders.Keys <= s'.used
    requires r in s'.cache.meta && s'.cache.meta[r].key == Some(s.calls[t].key)
    requires forall x | x in s.cache.meta :: x in s'.cache.meta && s'.cache.meta[x].key == s.cache.meta[x].key
    ensures Valued(s')
  {
  }

  /** The state after a successful initialization. */
  ghost function Finished(s: State, t: Name, h: Name): State
    requires t in s.calls && s.calls[t].stage.Filling? && s.calls[t].stage.region in s.cache.meta
    requires s.calls[t].token in s.tokens
  {
    var r, key, k := s.calls[t].stage.region, s.calls[t].key, s.calls[t].token;
    var s1 := AddHolder(s, h, r);
    s1.(cache := Publish(s1.cache, r, key),
        tokens := s.tokens[k := s.tokens[k].(value := Some(h), cleaned := true, owner := None)],
        insertTokens := s.insertTokens - {key},
        calls := s.calls[t := s.calls[t].(cleaned := true, stage := Leaving)])
  }

  lemma PublishSound(s: State, r: Name, key: Key)
    requires Sound(s) && r in s.cache.meta && s.cache.meta[r].refcount > 0 && s.cache.meta[r].key == Some(key)
    ensures Sound(s.(cache := Publish(s.cache, r, key)))
  {
    hide Valid, Counted, HeldBytes, Drift;
    PublishValid(s.cache, r, key);
  }

  lemma FinishedSound(s: State, t: Name, h: Name)
    requires Sound(s) && t in s.calls && s.calls[t].stage.Filling? && s.calls[t].token in s.tokens && h !in s.used
    requires var r := s.calls[t].stage.region;
             r in s.cache.meta && s.cache.meta[r].Pending() && s.cache.meta[r].key == Some(s.calls[t].key)
    ensures Sound(Finished(s, t, h))
  {
    var r := s.calls[t].stage.region;
    AddHolderSound(s, h, r);
    var s1 := AddHolder(s, h, r);
    PublishSound(s1, r, s.calls[t].key);
    hide Valid, Counted, HeldBytes, Drift;
  }

  lemma FinishedInv(s: State, t: Name, h: Name)
    requires Inv(s) && Enabled(s, Initialize(t, true, h))
    requires s.calls[t].stage.region in s.cache.meta && s.calls[t].token in s.tokens
    ensures Inv(Finished(s, t, h))
  {
    hide Valid, Counted, Registered, Called, Filled, Owned, Valued, HeldBytes, Drift;
    var r, k := s.calls[t].stage.region, s.calls[t].token;
    FillingCall(s, t);
    InvParts(s);
    var s' := Finished(s, t, h);
    FinishedSound(s, t, h);
    FinishToken(s.tokens, s.insertTokens, s.calls, t, h);
    FinishValued(s, s', t, h, r);
    FilledDrop(s.cache.meta, s'.cache.meta, s.calls, t, s'.calls[t]);
    OwnedMove(s.cache.meta, s'.cache.meta, s.calls, t, s'.calls);
    assert Orderly(s');
    InvParts(s');
  }

  lemma InitializeSucceeds(s: State, t: Name, holder: Name)
    requires Inv(s) && Enabled(s, Initialize(t, true, holder))
    ensures Inv(DoInitialize(s, t, true, holder).0)
  {
    hide Valid, Counted, Registered, Called, Filled, Owned, Valued, HeldBytes, Drift, Hold;
    FillingCall(s, t);
    FinishedInv(s, t, holder);
    FinishToken(s.tokens, s.insertTokens, s.calls, t, holder);
    assert DoInitialize(s, t, true, holder).0 == Finished(s, t, holder);
  }

  // ---------- Leave ----------

  lemma LeaveCleaned(tokens: map<Name, Token>, ins: map<Key, Name>, calls: map<Name, Call>, t: Name)
    requires Registered(tokens, ins, calls) && Called(tokens, calls) && t in calls && calls[t].stage.Leaving?
    requires tokens[calls[t].token].cleaned
    ensures Registered(tokens, ins, calls - {t}) && Called(tokens, calls - {t})
  {
    forall k | k in tokens
      ensures |Users(calls - {t}, k)| == |Users(calls, k)| - if calls[t].token == k then 1 else 0
    {
      UsersRemove(calls, t, k);
    }
    hide Users;
  }

  /** A call that computes nothing is gone; its token is as it was, but for its count. */
  lemma LeaveCalled(tokens: map<Name, Token>, calls: map<Name, Call>, t: Name, token: Token)
    requires Called(tokens, calls) && t in calls && calls[t].stage.Leaving?
    requires token == tokens[calls[t].token].(refcount := token.refcount, cleaned := token.cleaned)
    requires token.cleaned == tokens[calls[t].token].cleaned || forall u | u in calls && calls[u].token == calls[t].token :: u == t
    ensures Called(tokens[calls[t].token := token], calls - {t})
  {
  }

  lemma LeaveShared(tokens: map<Name, Token>, ins: map<Key, Name>, calls: map<Name, Call>, t: Name)
    requires Registered(tokens, ins, calls) && Called(tokens, calls) && t in calls && calls[t].stage.Leaving?
    requires !tokens[calls[t].token].cleaned && tokens[calls[t].token].refcount > 1
    ensures var k := calls[t].token;
            var tokens' := tokens[k := tokens[k].(refcount := tokens[k].refcount - 1)];
            Registered(tokens', ins, calls - {t}) && Called(tokens', calls - {t})
  {
    var k := calls[t].token;
    assert k in tokens;
    LeaveCalled(tokens, calls, t, tokens[k].(refcount := tokens[k].refcount - 1));
    hide Called;
    forall k | k in tokens
      ensures |Users(calls - {t}, k)| == |Users(calls, k)| - if calls[t].token == k then 1 else 0
    {
      UsersRemove(calls, t, k);
    }
    hide Users;
  }

  lemma LastUser(tokens: map<Name, Token>, ins: map<Key, Name>, calls: map<Name, Call>, t: Name)
    requires Registered(tokens, ins, calls) && Called(tokens, calls) && t in calls
    requires !tokens[calls[t].token].cleaned && tokens[calls[t].token].refcount == 1
    ensures forall u | u in calls && calls[u].token == calls[t].token :: u == t
  {
    var users := Users(calls, calls[t].token);
    assert t in users && |users - {t}| == 0;
    forall u | u in calls && calls[u].token == calls[t].token ensures u == t {
      assert u in users;
    }
  }

  lemma UncleanedUsed(tokens: map<Name, Token>, ins: map<Key, Name>, calls: map<Name, Call>, k: Name)
    requires Registered(tokens, ins, calls) && k in tokens && !tokens[k].cleaned
    ensures tokens[k].refcount > 0
  {
  }

  lemma LeaveLast(tokens: map<Name, Token>, ins: map<Key, Name>, calls: map<Name, Call>, t: Name)
    requires Registered(tokens, ins, calls) && Called(tokens, calls) && t in calls && calls[t].stage.Leaving?
    requires !tokens[calls[t].token].cleaned && tokens[calls[t].token].refcount == 1
    ensures var key, k := calls[t].key, calls[t].token;
            var tokens' := tokens[k := tokens[k].(refcount := 0, cleaned := true)];
            Registered(tokens', ins - {key}, calls - {t}) && Called(tokens', calls - {t})
  {
    LastUser(tokens, ins, calls, t);
    var k := calls[t].token;
    assert k in tokens && tokens[k].key == calls[t].key;
    LeaveCalled(tokens, calls, t, tokens[k].(refcount := 0, cleaned := true));
    hide Called;
    forall k | k in tokens && k != calls[t].token ensures |Users(calls - {t}, k)| == |Users(calls, k)| {
      UsersRemove(calls, t, k);
    }
    hide Users;
  }

  lemma LeaveRest(s: State, s': State, t: Name)
    requires Filled(s.cache.meta, s.calls) && Valued(s) && t in s.calls && !s.calls[t].stage.Filling?
    requires s' == s.(tokens := s'.tokens, insertTokens := s'.insertTokens, calls := s.calls - {t})
    requires s'.tokens.Keys == s.tokens.Keys && forall k | k in s.tokens :: s'.tokens[k].value == s.tokens[k].value
    ensures Filled(s'.cache.meta, s'.calls) && Valued(s')
  {
  }

  lemma LeaveInv(s: State, t: Name)
    requires Inv(s) && Enabled(s, Leave(t))
    ensures Inv(DoLeave(s, t).0)
  {
    hide Valid, Counted, Registered, Filled, Owned, Valued, HeldBytes, Drift;
    InvParts(s);
    var s' := DoLeave(s, t).0;
    if !s.tokens[s.calls[t].token].cleaned {
      UncleanedUsed(s.tokens, s.insertTokens, s.calls, s.calls[t].token);
    }
    if s.calls[t].cleaned || s.tokens[s.calls[t].token].cleaned {
      LeaveCleaned(s.tokens, s.insertTokens, s.calls, t);
    } else if s.tokens[s.calls[t].token].refcount > 1 {
      LeaveShared(s.tokens, s.insertTokens, s.calls, t);
    } else {
      LeaveLast(s.tokens, s.insertTokens, s.calls, t);
    }
    hide Called;
    LeaveRest(s, s', t);
    OwnedMove(s.cache.meta, s.cache.meta, s.calls, t, s'.calls);
    assert Orderly(s');
    InvParts(s');
  }

  // ---------- Shared pointers ----------

  lemma PtrInv(s: State, h: Name, n: nat)
    requires Inv(s) && h in s.ptrs
    ensures Inv(s.(ptrs := s.ptrs[h := n]))
  {
    hide Valid, Counted, Registered, Called, Filled, Owned, HeldBytes, Drift;
    assert s.ptrs[h := n].Keys == s.ptrs.Keys;
  }

  lemma DestroyInv(s: State, h: Name)
    requires Inv(s) && !Referenced(s, h)
    ensures h in s.holders && s.holders[h] in s.cache.meta && s.cache.meta[s.holders[h]].refcount > 0
    ensures Inv(DoDestroy(s, h).0)
  {
    hide Valid, Registered, Called, Filled, Owned, HeldBytes, Drift;
    InvParts(s);
    HolderPins(s.cache.meta, s.holders, h);
    var s' := DoDestroy(s, h).0;
    DestroySound(s, h);
    hide Counted;
    FilledKeeps(s.cache.meta, s'.cache.meta, s.calls);
    OwnedKeeps(s.cache.meta, s'.cache.meta, s.calls);
    assert Valued(s');
    InvParts(s');
  }

  // ---------- All steps, all runs ----------

  /** Every step keeps the invariant. */
  lemma StepKeepsInv(s: State, step: Step)
    requires Inv(s) && Enabled(s, step)
    ensures Inv(Apply(s, step).0)
  {
    hide Inv, DoBegin, DoLockToken, DoGetSize, DoAllocate, DoInitialize, DoLeave, DoDestroy;
    match step
    case Begin(t, key, token, holder) =>
      if key in s.cache.keys {
        BeginHit(s, t, key, token, holder);
      } else {
        BeginMiss(s, t, key, token, holder);
      }
    case LockToken(t) => LockTokenInv(s, t);
    case GetSize(t, result) => GetSizeInv(s, t, result);
    case AllocateRegion(t, mapping, whole, novel) => AllocateInv(s, t, mapping, whole, novel);
    case Initialize(t, ok, holder) =>
      if ok {
        InitializeSucceeds(s, t, holder);
      } else {
        InitializeThrows(s, t, holder);
      }
    case Leave(t) => LeaveInv(s, t);
    case CopyPtr(h) => PtrInv(s, h, s.ptrs[h] + 1);
    case DropPtr(h) => PtrInv(s, h, s.ptrs[h] - 1);
    case DestroyHolder(h) => DestroyInv(s, h);
  }

  lemma AllocateInv(s: State, t: Name, mapping: int, whole: Name, novel: Name)
    requires Inv(s) && Enabled(s, AllocateRegion(t, mapping, whole, novel))
    ensures Inv(DoAllocate(s, t, mapping, whole, novel).0)
  {
    hide Valid, Counted, Registered, Called, Filled, Valued, HeldBytes, Drift, Allocate;
    if Allocate(s.cache, s.calls[t].stage.size, mapping, whole, novel).1.None? {
      AllocateRefused(s, t, mapping, whole, novel);
    } else {
      AllocateGranted(s, t, mapping, whole, novel);
    }
  }
}
