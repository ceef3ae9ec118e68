/** Which regions `allocate` takes: from the free ones, from a new chunk, or by evicting what has been
    idle longest. Everything is said of the cache before and after, not of the functions in between. */
module CacheEviction {
  import opened Lists
  import opened Tape
  import opened CacheRegions
  import opened CacheAllocate
  import opened CacheTheorems

  // ---------- One eviction ----------

  /** The keys that are left are those whose region has not been evicted. */
  ghost predicate KeysLeft<R>(c: Cache<R>, c': Cache<R>) {
    && KeysShrink(c.keys, c'.keys)
    && forall k | k in c.keys :: k in c'.keys <==> !(c.keys[k] in c.lru && c.keys[k] !in c'.lru)
  }

  lemma AbsorbThins<R>(c: Cache<R>, r: R)
    requires Valid(c) && r in c.meta && c.meta[r].Pending()
    ensures Thinned(c.adj, MergedLeft(c, r).adj) && Thinned(c.adj, MergedRight(c, r).adj)
    ensures MergedRight(c, r).meta[r].ptr == c.meta[r].ptr && MergedRight(c, r).meta[r].chunk == c.meta[r].chunk
  {
    hide Tiled, Mapped, ListsFree, ListsLru, Sorted, States, Keyed, Thinned, RemoveAt, Without;
    var i := IndexOf(c.adj, r);
    SameThins(c.adj);
    if i > 0 { RemoveAtThins(c.adj, i - 1); }
    if i + 1 < |c.adj| { RemoveAtThins(c.adj, i + 1); }
  }

  lemma SameThins<R>(s: seq<R>)
    ensures Thinned(s, s)
  {
  }

  /** Where a freed region begins: at its own start, or at that of the free region before it. */
  ghost function FreedPtr<R>(c: Cache<R>, r: R): int
    requires ListsAll(c.adj, c.meta) && r in c.meta
  {
    var i := IndexOf(c.adj, r);
    if i > 0 && CanMerge(c.meta, r, c.adj[i - 1]) then c.meta[r].ptr - c.meta[c.adj[i - 1]].size else c.meta[r].ptr
  }

  lemma FreeRegionOrder<R>(c: Cache<R>, r: R)
    requires Valid(c) && r in c.meta && c.meta[r].Pending()
    ensures var c' := FreeRegion(c, r);
            Thinned(c.adj, c'.adj) && c'.meta[r].ptr == FreedPtr(c, r) && c'.meta[r].chunk == c.meta[r].chunk
  {
    hide Tiled, Mapped, ListsFree, ListsLru, Sorted, States, Keyed, Thinned, RemoveAt, Without, Insert;
    MergedLeftValid(c, r);
    MergedLeftApart(c, r);
    AbsorbThins(c, r);
    var c1 := MergedLeft(c, r);
    AbsorbThins(c1, r);
    MergedRightValid(c1, r);
    MergedRightApart(c1, r);
    ThinnedTwice(c.adj, c1.adj, MergedRight(c1, r).adj);
  }

  lemma EvictRegionOrder<R>(c: Cache<R>, r: R)
    requires Valid(c) && r in c.meta && c.meta[r].inLru
    ensures var c' := EvictRegion(c, r);
            && Thinned(c.adj, c'.adj) && c'.meta[r].ptr == FreedPtr(c, r) && c'.meta[r].chunk == c.meta[r].chunk
            && Thinned(c.lru, c'.lru) && (forall x | x in c.lru :: x in c'.lru <==> x != r)
            && KeysLeft(c, c')
            && (forall x | x in c'.meta && x != r :: x in c.meta && c'.meta[x] == c.meta[x])
            && (forall x | x in c.meta && !c.meta[x].isFree :: x in c'.meta)
  {
    hide Tiled, Mapped, ListsAll, ListsFree, Sorted, Thinned, FreeRegion, Without;
    UnlinkedValid(c, r);
    WithoutThins(c.lru, r);
    WithoutElems(c.lru, r);
    FreeRegionOrder(Unlinked(c, r), r);
    KeysUnlinked(c, r);
    SamePtr(c, r);
  }

  lemma SamePtr<R>(c: Cache<R>, r: R)
    requires ListsAll(c.adj, c.meta) && r in c.meta
    ensures ListsAll(Unlinked(c, r).adj, Unlinked(c, r).meta) && FreedPtr(Unlinked(c, r), r) == FreedPtr(c, r)
  {
  }

  lemma KeysUnlinked<R>(c: Cache<R>, r: R)
    requires Keyed(c.keys, c.meta) && r in c.meta && r in c.lru
    requires var lru' := Without(c.lru, r); forall x | x in c.lru :: x in lru' <==> x != r
    ensures KeysLeft(c, c.(keys := UnlinkKey(c, r), lru := Without(c.lru, r)))
  {
  }

  // ---------- One round: evictSome ----------

  /** The region after `f` cannot be evicted as well. */
  ghost predicate Stuck<R>(c: Cache<R>, f: R)
    requires ListsAll(c.adj, c.meta) && f in c.meta
  {
    var n := IndexOf(c.adj, f) + 1;
    n == |c.adj| || c.meta[c.adj[n]].chunk != c.meta[f].chunk || !c.meta[c.adj[n]].inLru
  }

  /** `x` is one of the regions from `r` to `f`. */
  ghost predicate Within<R>(adj: seq<R>, r: R, f: R, x: R)
    requires r in adj && f in adj
  {
    x in adj && IndexOf(adj, r) <= IndexOf(adj, x) <= IndexOf(adj, f)
  }

  /** A round that starts at `r` and ends at `f`: all regions from `r` to `f` were idle or free and in one
      chunk, and exactly the idle ones among them are evicted, with their keys. It goes on to the right
      only as long as what it has freed is not enough, and as far as that. */
  ghost predicate Round<R>(c: Cache<R>, r: R, c': Cache<R>, f: R, size: nat)
    requires Valid(c) && Valid(c')
  {
    && r in c.meta && f in c.meta && f in c'.meta && c'.meta[f].isFree && c.meta[f].inLru
    && IndexOf(c.adj, r) <= IndexOf(c.adj, f)
    && (forall x | x in c.adj && Within(c.adj, r, f, x) :: c.meta[x].chunk == c.meta[r].chunk && (c.meta[x].inLru || c.meta[x].isFree))
    && Thinned(c.lru, c'.lru) && (forall x | x in c.lru :: x in c'.lru <==> !Within(c.adj, r, f, x))
    && KeysLeft(c, c') && KeepsPinned(c.meta, c'.meta) && SameBudget(c, c')
    && c'.meta[f].ptr == FreedPtr(c, r) && (f != r ==> c.meta[f].ptr - c'.meta[f].ptr < size)
    && (c'.meta[f].size >= size || Stuck(c', f))
  }

  lemma ChunksBetween<R>(c: Cache<R>, x: R, y: R)
    requires Valid(c) && x in c.meta && y in c.meta && IndexOf(c.adj, x) <= IndexOf(c.adj, y)
    ensures c.meta[x].chunk <= c.meta[y].chunk
  {
    hide Tiled, Mapped, ListsFree, ListsLru, Sorted, States, Keyed;
    var i, j := IndexOf(c.adj, x), IndexOf(c.adj, y);
    if i < j { InOrder(c.chunks, TapeOf(c.adj, c.meta), i, j); }
  }

  lemma RoundOfOne<R>(c: Cache<R>, r: R, size: nat)
    requires Valid(c) && r in c.meta && c.meta[r].inLru
    requires var c1 := EvictRegion(c, r); c1.meta[r].size >= size || !MayExtend(c1, r)
    ensures Round(c, r, EvictRegion(c, r), r, size)
  {
    hide Tiled, Mapped, ListsFree, Sorted, States, Keyed, Thinned, EvictRegion, KeysLeft;
    EvictRegionOrder(c, r);
    EvictRegionFrame(c, r);
  }

  /** The neighbour to which the round goes on is directly behind in the original order, too. */
  lemma NextBehind<R>(c: Cache<R>, c1: Cache<R>, r: R, x: R)
    requires Valid(c) && Valid(c1) && r in c.meta && r in c1.meta && MayExtend(c1, r) && Thinned(c.adj, c1.adj)
    requires x in c1.meta && x != r
    ensures IndexOf(c.adj, r) < IndexOf(c.adj, x) <==> IndexOf(c1.adj, Next(c1, r)) <= IndexOf(c1.adj, x)
  {
    hide Tiled, Mapped, ListsFree, ListsLru, Sorted, States, Keyed;
    assert x in c1.adj && r in c1.adj;
    assert Before(c1.adj, r, x) <==> Before(c.adj, r, x);
  }

  lemma SameSide<R>(c: Cache<R>, c1: Cache<R>, x: R, y: R)
    requires Valid(c) && Valid(c1) && x in c1.meta && y in c1.meta && Thinned(c.adj, c1.adj)
    ensures x in c.adj && y in c.adj
    ensures IndexOf(c.adj, x) <= IndexOf(c.adj, y) <==> IndexOf(c1.adj, x) <= IndexOf(c1.adj, y)
  {
    hide Tiled, Mapped, ListsFree, ListsLru, Sorted, States, Keyed;
    assert x in c1.adj && y in c1.adj;
    assert Before(c1.adj, y, x) <==> Before(c.adj, y, x);
  }

  /** The regions from `r` to `f` are `r`, those from its neighbour to `f`, and free ones that were swallowed. */
  lemma WithinNext<R>(c: Cache<R>, c1: Cache<R>, r: R, f: R, x: R)
    requires Valid(c) && Valid(c1) && r in c.meta && r in c1.meta && MayExtend(c1, r) && Thinned(c.adj, c1.adj)
    requires f in c1.meta && f != r && IndexOf(c1.adj, Next(c1, r)) <= IndexOf(c1.adj, f)
    requires x in c1.meta && x != r
    ensures f in c.adj && r in c.adj && (Within(c.adj, r, f, x) <==> Within(c1.adj, Next(c1, r), f, x))
  {
    hide Tiled, Mapped, ListsFree, ListsLru, Sorted, States, Keyed, Thinned;
    NextBehind(c, c1, r, x);
    NextBehind(c, c1, r, f);
    SameSide(c, c1, x, f);
    SameSide(c, c1, r, r);
  }

  /** Between the first eviction of a round and the rest of it. */
  ghost predicate Between<R>(c: Cache<R>, r: R, c1: Cache<R>, size: nat) {
    && Valid(c) && Valid(c1) && r in c.meta && c.meta[r].inLru && r in c1.meta && c1.meta[r].isFree
    && c1.meta[r].size < size && MayExtend(c1, r)
    && Thinned(c.adj, c1.adj) && c1.meta[r].ptr == FreedPtr(c, r) && c1.meta[r].chunk == c.meta[r].chunk
    && Thinned(c.lru, c1.lru) && (forall x | x in c.lru :: x in c1.lru <==> x != r) && KeysLeft(c, c1)
    && (forall x | x in c1.meta && x != r :: x in c.meta && c1.meta[x] == c.meta[x])
    && (forall x | x in c.meta && !c.meta[x].isFree :: x in c1.meta)
    && KeepsPinned(c.meta, c1.meta) && SameBudget(c, c1)
  }

  lemma EvictBetween<R>(c: Cache<R>, r: R, size: nat)
    requires Valid(c) && r in c.meta && c.meta[r].inLru
    requires var c1 := EvictRegion(c, r); c1.meta[r].size < size && MayExtend(c1, r)
    ensures Between(c, r, EvictRegion(c, r), size)
  {
    hide Valid, Thinned, EvictRegion, KeysLeft, KeepsPinned, MayExtend, FreedPtr;
    EvictRegionOrder(c, r);
    EvictRegionFrame(c, r);
  }

  lemma BetweenNext<R>(c: Cache<R>, r: R, c1: Cache<R>, size: nat)
    requires Between(c, r, c1, size)
    ensures var n := Next(c1, r);
            && n != r && n in c.meta && c1.meta[n] == c.meta[n] && c.meta[n].chunk == c1.meta[r].chunk
            && c1.meta[n].ptr == c1.meta[r].ptr + c1.meta[r].size && FreedPtr(c1, n) == c1.meta[r].ptr
  {
    hide Tiled, Mapped, ListsFree, ListsLru, Sorted, States, Keyed, Thinned, KeysLeft, KeepsPinned;
    JoinedRegions(c1, IndexOf(c1.adj, r));
  }

  /** Regions from `r` to `f` that the first eviction swallowed were free, and all are in one chunk. */
  lemma RestUnpinned<R>(c: Cache<R>, r: R, c1: Cache<R>, c': Cache<R>, f: R, size: nat, x: R)
    requires Between(c, r, c1, size) && Valid(c') && Round(c1, Next(c1, r), c', f, size) && f != r
    requires x in c.adj && f in c.adj && r in c.adj && Within(c.adj, r, f, x)
    ensures c.meta[x].chunk == c.meta[r].chunk && (c.meta[x].inLru || c.meta[x].isFree)
  {
    hide Tiled, Mapped, ListsFree, ListsLru, Sorted, States, Keyed, Thinned, KeysLeft, KeepsPinned, Within;
    BetweenNext(c, r, c1, size);
    SelfWithin(c1.adj, Next(c1, r), f);
    Bounds(c.adj, r, f, x);
    ChunksBetween(c, r, x);
    ChunksBetween(c, x, f);
    if x in c1.meta && x != r { WithinNext(c, c1, r, f, x); }
  }

  lemma SelfWithin<R>(adj: seq<R>, r: R, f: R)
    requires r in adj && f in adj && IndexOf(adj, r) <= IndexOf(adj, f)
    ensures Within(adj, r, f, f)
  {
  }

  lemma Bounds<R>(adj: seq<R>, r: R, f: R, x: R)
    requires r in adj && f in adj && Within(adj, r, f, x)
    ensures x in adj && IndexOf(adj, r) <= IndexOf(adj, x) <= IndexOf(adj, f)
  {
  }

  lemma KeysLeftTwice<R>(c: Cache<R>, c1: Cache<R>, c': Cache<R>)
    requires KeysLeft(c, c1) && KeysLeft(c1, c') && (forall x | x in c1.lru :: x in c.lru) && (forall x | x in c'.lru :: x in c1.lru)
    ensures KeysLeft(c, c')
  {
  }

  lemma RoundGoesOn<R>(c: Cache<R>, r: R, c1: Cache<R>, c': Cache<R>, f: R, size: nat)
    requires Between(c, r, c1, size) && Valid(c') && Round(c1, Next(c1, r), c', f, size)
    ensures Round(c, r, c', f, size)
  {
    hide Tiled, Mapped, ListsFree, Sorted, States, Keyed, Thinned, KeysLeft, KeepsPinned, Within, FreedPtr;
    var n := Next(c1, r);
    BetweenNext(c, r, c1, size);
    assert f != r && f in c.adj && c1.meta[f] == c.meta[f];
    SelfWithin(c1.adj, n, f);
    WithinNext(c, c1, r, f, f);
    Bounds(c.adj, r, f, f);
    SelfWithin(c.adj, r, f);
    forall x | x in c.adj && Within(c.adj, r, f, x)
      ensures c.meta[x].chunk == c.meta[r].chunk && (c.meta[x].inLru || c.meta[x].isFree)
    {
      RestUnpinned(c, r, c1, c', f, size, x);
    }
    forall x | x in c.lru ensures x in c'.lru <==> !Within(c.adj, r, f, x) {
      if x != r { WithinNext(c, c1, r, f, x); } else { FirstWithin(c.adj, r, f); ThinnedSub(c1.lru, c'.lru); }
    }
    ThinnedTwice(c.lru, c1.lru, c'.lru);
    ThinnedSub(c.lru, c1.lru);
    ThinnedSub(c1.lru, c'.lru);
    KeysLeftTwice(c, c1, c');
    KeepsTwice(c.meta, c1.meta, c'.meta);
  }

  lemma FirstWithin<R>(adj: seq<R>, r: R, f: R)
    requires r in adj && f in adj && IndexOf(adj, r) <= IndexOf(adj, f)
    ensures Within(adj, r, f, r)
  {
  }

  lemma ThinnedSub<R>(s: seq<R>, s': seq<R>)
    requires Thinned(s, s')
    ensures forall x | x in s' :: x in s
  {
  }

  lemma KeepsTwice<R>(meta: map<R, Meta>, mid: map<R, Meta>, meta': map<R, Meta>)
    requires KeepsPinned(meta, mid) && KeepsPinned(mid, meta')
    ensures KeepsPinned(meta, meta')
  {
  }

  /** `evictSome` is such a round. */
  lemma {:induction false} EvictFromRound<R>(c: Cache<R>, r: R, size: nat)
    requires Valid(c) && r in c.meta && c.meta[r].inLru
    ensures Round(c, r, EvictFrom(c, r, size).0, EvictFrom(c, r, size).1, size)
    decreases |c.lru|
  {
    hide Valid, EvictRegion, Round, MayExtend, Between;
    var c1 := EvictRegion(c, r);
    if c1.meta[r].size >= size || !MayExtend(c1, r) {
      RoundOfOne(c, r, size);
    } else {
      EvictBetween(c, r, size);
      EvictFromRound(c1, Next(c1, r), size);
      RoundGoesOn(c, r, c1, EvictFrom(c, r, size).0, EvictFrom(c, r, size).1, size);
    }
  }

  // ---------- Rounds until the request fits ----------

  /** Rounds, each of which starts at the region that has been idle longest, and of which only the last
      may free enough. */
  ghost predicate Rounds<R>(cs: seq<Cache<R>>, fs: seq<R>, size: nat) {
    && |cs| == |fs| + 1 && (forall i | 0 <= i < |cs| :: Valid(cs[i]))
    && (forall i | 0 <= i < |fs| :: cs[i].lru != [] && Round(cs[i], cs[i].lru[0], cs[i + 1], fs[i], size))
    && (forall i | 0 <= i < |fs| - 1 :: cs[i + 1].meta[fs[i]].size < size)
  }

  /** The last round has freed enough. */
  ghost predicate Enough<R>(cs: seq<Cache<R>>, fs: seq<R>, size: nat)
    requires Rounds(cs, fs, size)
  {
    |fs| > 0 && cs[|fs|].meta[fs[|fs| - 1]].size >= size
  }

  lemma RoundsPrepend<R>(c: Cache<R>, cs: seq<Cache<R>>, f: R, fs: seq<R>, size: nat)
    requires Rounds(cs, fs, size) && Valid(c) && c.lru != [] && Round(c, c.lru[0], cs[0], f, size) && cs[0].meta[f].size < size
    ensures Rounds([c] + cs, [f] + fs, size) && (|fs| > 0 ==> (Enough([c] + cs, [f] + fs, size) <==> Enough(cs, fs, size)))
    ensures |fs| == 0 ==> !Enough([c] + cs, [f] + fs, size)
  {
    hide Valid, Round;
    forall i | 0 <= i < |[f] + fs|
      ensures ([c] + cs)[i].lru != [] && Round(([c] + cs)[i], ([c] + cs)[i].lru[0], ([c] + cs)[i + 1], ([f] + fs)[i], size)
    {
      if i > 0 { assert ([c] + cs)[i] == cs[i - 1] && ([f] + fs)[i] == fs[i - 1]; }
    }
  }

  lemma {:induction false} EvictionRounds<R>(c: Cache<R>, size: nat) returns (cs: seq<Cache<R>>, fs: seq<R>)
    requires Valid(c)
    ensures Rounds(cs, fs, size) && cs[0] == c && cs[|fs|] == EvictUntilFits(c, size).0
    ensures match EvictUntilFits(c, size).1
            case Some(f) => Enough(cs, fs, size) && f == fs[|fs| - 1]
            case None => !Enough(cs, fs, size) && cs[|fs|].lru == []
    decreases |c.lru|
  {
    hide Valid, EvictFrom, Round;
    if c.lru == [] {
      cs, fs := [c], [];
    } else {
      OldestIdle(c);
      EvictFromRound(c, c.lru[0], size);
      var (c1, r) := EvictFrom(c, c.lru[0], size);
      if c1.meta[r].size >= size {
        cs, fs := [c, c1], [r];
      } else {
        cs, fs := EvictionRounds(c1, size);
        RoundsPrepend(c, cs, r, fs, size);
        cs, fs := [c] + cs, [r] + fs;
      }
    }
  }

  lemma {:induction false} EvictionKeys<R>(c: Cache<R>, size: nat)
    requires Valid(c)
    ensures var c' := EvictUntilFits(c, size).0; Thinned(c.lru, c'.lru) && KeysLeft(c, c')
    decreases |c.lru|
  {
    hide Valid, EvictFrom, Thinned;
    SameThins(c.lru);
    if c.lru != [] {
      OldestIdle(c);
      EvictFromRound(c, c.lru[0], size);
      var (c1, r) := EvictFrom(c, c.lru[0], size);
      if c1.meta[r].size < size {
        EvictionKeys(c1, size);
        var c' := EvictUntilFits(c, size).0;
        ThinnedTwice(c.lru, c1.lru, c'.lru);
        ThinnedSub(c.lru, c1.lru);
        ThinnedSub(c1.lru, c'.lru);
        KeysLeftTwice(c, c1, c');
      }
    }
  }

  // ---------- Where a granted region comes from ----------

  /** `f` is free and large enough, and no such region is smaller. */
  ghost predicate SmallestFit<R>(c: Cache<R>, f: R, size: nat) {
    && f in c.meta && c.meta[f].isFree && c.meta[f].size >= size
    && forall x | x in c.meta && c.meta[x].isFree && c.meta[x].size >= size :: c.meta[f].size <= c.meta[x].size
  }

  /** `n` begins where `f` did. */
  ghost predicate AtStart<R>(meta: map<R, Meta>, f: R, meta': map<R, Meta>, n: R) {
    f in meta && n in meta' && meta'[n].ptr == meta[f].ptr && meta'[n].chunk == meta[f].chunk
  }

  /** Nothing has been evicted or mapped. */
  ghost predicate NothingLost<R>(c: Cache<R>, c': Cache<R>) {
    c'.lru == c.lru && c'.keys == c.keys && c'.chunks == c.chunks
  }

  /** Best fit first: if a free region is large enough, the front of the smallest such region is granted. */
  lemma ServedBestFit<R>(c: Cache<R>, request: nat, size: nat, paged: nat, need: nat, chunk: int, whole: R, novel: R) returns (f: R)
    requires Valid(c) && Asks(c.pageSize, request, size, paged, need) && !AllSmall(c.meta, size)
    requires Names(c, size, whole, novel) && CanMap(c.chunks, Chunk(chunk, need))
    ensures var (c', n) := Served(c, request, size, paged, need, chunk, whole, novel);
            && SmallestFit(c, f, size) && n.Some? && AtStart(c.meta, f, c'.meta, n.value) && NothingLost(c, c')
  {
    AsksFor(c, request, size, paged, need);
    var u := LowerBound(c.sizes, c.meta, size);
    if u == |c.sizes| {
      NoFit(c, size);
      assert false;
    }
    f := c.sizes[u];
    AllocateFromFreeRegionGrants(c, f, size, novel);
    forall x | x in c.meta && c.meta[x].isFree && c.meta[x].size >= size ensures c.meta[f].size <= c.meta[x].size {
      BestFit(c, size, x);
    }
  }

  /** Otherwise, if the budget admits a chunk for the request, the front of a new one of exactly that size. */
  lemma ServedNewChunk<R>(c: Cache<R>, request: nat, size: nat, paged: nat, need: nat, chunk: int, whole: R, novel: R)
    requires Valid(c) && Asks(c.pageSize, request, size, paged, need) && AllSmall(c.meta, size)
    requires Names(c, size, whole, novel) && CanMap(c.chunks, Chunk(chunk, need)) && c.totalChunks + need <= c.maxTotal
    ensures var (c', n) := Served(c, request, size, paged, need, chunk, whole, novel);
            && c'.lru == c.lru && c'.keys == c.keys && c'.chunks == c.chunks + [Chunk(chunk, need)]
            && n.Some? && n.value in c'.meta && c'.meta[n.value].ptr == chunk && c'.meta[n.value].chunk == |c.chunks|
  {
    hide Tiled, ListsAll, ListsLru, Sorted, States, Keyed, AllocateFromFreeRegion, RoundUp, RequiredChunk, Insert;
    AsksFor(c, request, size, paged, need);
    NoneFits(c, size);
    ServedByChunk(c, size, Chunk(chunk, need), whole, novel);
    AllocateFromFreeRegionGrants(AddChunk(c, Chunk(chunk, need), whole), whole, size, novel);
  }

  lemma NoneFits<R>(c: Cache<R>, size: nat)
    requires Valid(c) && AllSmall(c.meta, size)
    ensures LowerBound(c.sizes, c.meta, size) == |c.sizes|
  {
  }

  /** Otherwise rounds of eviction, and the front of what the last of them has freed, if it is enough. */
  lemma ServedEviction<R>(c: Cache<R>, request: nat, size: nat, paged: nat, need: nat, chunk: int, whole: R, novel: R)
    returns (cs: seq<Cache<R>>, fs: seq<R>)
    requires Valid(c) && Asks(c.pageSize, request, size, paged, need) && AllSmall(c.meta, size)
    requires Names(c, size, whole, novel) && CanMap(c.chunks, Chunk(chunk, need)) && c.totalChunks + need > c.maxTotal
    ensures Rounds(cs, fs, size) && cs[0] == c
    ensures var (c', n) := Served(c, request, size, paged, need, chunk, whole, novel);
            if Enough(cs, fs, size)
            then n.Some? && AtStart(cs[|fs|].meta, fs[|fs| - 1], c'.meta, n.value) && NothingLost(cs[|fs|], c')
            else n.None? && c' == cs[|fs|] && c'.lru == []
  {
    hide Tiled, ListsAll, ListsLru, Sorted, States, Keyed, AllocateFromFreeRegion, RoundUp, RequiredChunk,
         EvictUntilFits, Rounds, Enough;
    AsksFor(c, request, size, paged, need);
    NoneFits(c, size);
    cs, fs := EvictionRounds(c, size);
    ServedByEviction(c, size, novel);
    var (c1, r) := EvictUntilFits(c, size);
    if r.Some? { AllocateFromFreeRegionGrants(c1, r.value, size, novel); }
  }

  /** Whatever the request, idle regions keep their order, and keys are lost by eviction only. */
  lemma AllocateOrder<R>(c: Cache<R>, request: nat, chunk: int, whole: R, novel: R)
    requires Valid(c) && Names(c, RoundUp(request, ALIGNMENT), whole, novel)
    requires CanMap(c.chunks, Chunk(chunk, RequiredChunk(c, RoundUp(request, ALIGNMENT))))
    ensures var c' := Allocate(c, request, chunk, whole, novel).0; Thinned(c.lru, c'.lru) && KeysLeft(c, c')
  {
    hide Tiled, ListsAll, ListsLru, Sorted, States, Keyed, AllocateFromFreeRegion, EvictUntilFits, Granted, Thinned;
    var size := RoundUp(request, ALIGNMENT);
    var u := LowerBound(c.sizes, c.meta, size);
    SameThins(c.lru);
    EvictionKeys(c, size);
    if u < |c.sizes| {
      AllocateFromFreeRegionGrants(c, c.sizes[u], size, novel);
    } else if BudgetLeft(c, size) {
      var k := Chunk(chunk, RequiredChunk(c, size));
      ServedByChunk(c, size, k, whole, novel);
      AllocateFromFreeRegionGrants(AddChunk(c, k, whole), whole, size, novel);
    } else {
      NoFit(c, size);
      ServedByEviction(c, size, novel);
      var (c1, r) := EvictUntilFits(c, size);
      if r.Some? { AllocateFromFreeRegionGrants(c1, r.value, size, novel); }
    }
  }
}
