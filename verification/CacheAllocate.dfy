/** Eviction and allocation of cache regions, on values. */
module CacheAllocate {
  import opened Arith
  import opened Lists
  import opened Tape
  import opened CacheRegions

  // ---------- What eviction leaves alone ----------

  /** Pinned regions stay as they are, and no other region becomes pinned. */
  ghost predicate KeepsPinned<R>(meta: map<R, Meta>, meta': map<R, Meta>) {
    && (forall r | r in meta && meta[r].Pinned() :: r in meta' && meta'[r] == meta[r])
    && (forall r | r in meta' && meta'[r].Pinned() :: r in meta && meta[r].Pinned())
  }

  /** No region is created, and every free region but `r` was free with the same metadata. */
  ghost predicate FreesOnly<R>(meta: map<R, Meta>, meta': map<R, Meta>, r: R) {
    forall x | x in meta' :: x in meta && (meta'[x].isFree && x != r ==> meta'[x] == meta[x])
  }

  ghost predicate AllSmall<R>(meta: map<R, Meta>, size: nat) {
    forall x | x in meta && meta[x].isFree :: meta[x].size < size
  }

  ghost predicate KeysShrink<R>(keys: map<Key, R>, keys': map<Key, R>) {
    forall k | k in keys' :: k in keys && keys'[k] == keys[k]
  }

  // ---------- evictRegion ----------

  ghost function UnlinkKey<R>(c: Cache<R>, r: R): map<Key, R>
    requires r in c.meta
  {
    var key := c.meta[r].key;
    if key.Some? && key.value in c.keys && c.keys[key.value] == r then c.keys - {key.value} else c.keys
  }

  ghost function Unlinked<R>(c: Cache<R>, r: R): Cache<R>
    requires r in c.meta
  {
    c.(totalAllocated := c.totalAllocated - c.meta[r].size, lru := Without(c.lru, r),
       keys := UnlinkKey(c, r), meta := c.meta[r := c.meta[r].(inLru := false)])
  }

  lemma UnlinkedIndexed<R>(c: Cache<R>, r: R)
    requires Indexed(c) && r in c.meta && c.meta[r].inLru
    ensures Indexed(Unlinked(c, r))
  {
    WithoutElems(c.lru, r);
  }

  lemma UnlinkedValid<R>(c: Cache<R>, r: R)
    requires Valid(c) && r in c.meta && c.meta[r].inLru
    ensures Valid(Unlinked(c, r)) && Unlinked(c, r).meta[r].Pending() && !c.meta[r].isFree
  {
    UnlinkedIndexed(c, r);
    assert TapeOf(c.adj, Unlinked(c, r).meta) == TapeOf(c.adj, c.meta);
  }

  ghost function EvictRegion<R>(c: Cache<R>, r: R): (c': Cache<R>)
    requires Valid(c) && r in c.meta && c.meta[r].inLru
    ensures Valid(c') && r in c'.meta && c'.meta[r].isFree && |c'.lru| == |c.lru| - 1
    ensures c' == c.(lru := c'.lru, adj := c'.adj, sizes := c'.sizes, keys := c'.keys, meta := c'.meta,
                     totalAllocated := c.totalAllocated - c.meta[r].size)
  {
    UnlinkedValid(c, r);
    WithoutElems(c.lru, r);
    FreeRegion(Unlinked(c, r), r)
  }

  lemma EvictRegionFrame<R>(c: Cache<R>, r: R)
    requires Valid(c) && r in c.meta && c.meta[r].inLru
    ensures var c' := EvictRegion(c, r);
            && KeepsPinned(c.meta, c'.meta) && FreesOnly(c.meta, c'.meta, r) && KeysShrink(c.keys, c'.keys)
            && c'.meta[r].size >= c.meta[r].size
  {
    hide Valid, FreeRegion;
    UnlinkedValid(c, r);
    var u := Unlinked(c, r);
    assert OnlyGrows(u.meta, FreeRegion(u, r).meta, r);
  }

  // ---------- evictSome ----------

  /** The loop goes on to the right neighbour if it is evictable and in the same chunk. */
  ghost predicate MayExtend<R>(c: Cache<R>, r: R)
    requires Valid(c) && r in c.meta
  {
    var i := IndexOf(c.adj, r);
    i + 1 < |c.adj| && c.meta[c.adj[i + 1]].chunk == c.meta[r].chunk && c.meta[c.adj[i + 1]].inLru
  }

  ghost function Next<R>(c: Cache<R>, r: R): (n: R)
    requires Valid(c) && r in c.meta && MayExtend(c, r)
    ensures n in c.meta && c.meta[n].inLru
  {
    c.adj[IndexOf(c.adj, r) + 1]
  }

  ghost function EvictFrom<R>(c: Cache<R>, r: R, size: nat): (e: (Cache<R>, R))
    requires Valid(c) && r in c.meta && c.meta[r].inLru
    ensures Valid(e.0) && e.1 in e.0.meta && e.0.meta[e.1].isFree && |e.0.lru| < |c.lru|
    decreases |c.lru|
  {
    var c1 := EvictRegion(c, r);
    if c1.meta[r].size >= size || !MayExtend(c1, r) then (c1, r)
    else EvictFrom(c1, Next(c1, r), size)
  }

  ghost predicate SameBudget<R>(c: Cache<R>, c': Cache<R>) {
    && c'.chunks == c.chunks && c'.totalChunks == c.totalChunks && c'.totalInUse == c.totalInUse
    && c'.maxTotal == c.maxTotal && c'.pageSize == c.pageSize
  }

  lemma {:induction false} EvictFromFrame<R>(c: Cache<R>, r: R, size: nat)
    requires Valid(c) && r in c.meta && c.meta[r].inLru
    ensures var (c', r') := EvictFrom(c, r, size);
            && KeepsPinned(c.meta, c'.meta) && KeysShrink(c.keys, c'.keys) && SameBudget(c, c')
            && (forall x | x in c'.meta :: x in c.meta)
            && (AllSmall(c.meta, size) && c'.meta[r'].size < size ==> AllSmall(c'.meta, size))
    decreases |c.lru|
  {
    hide Valid, EvictRegion;
    EvictRegionFrame(c, r);
    var c1 := EvictRegion(c, r);
    if c1.meta[r].size < size && MayExtend(c1, r) {
      EvictFromFrame(c1, Next(c1, r), size);
    }
  }

  // ---------- allocateFromFreeRegion ----------

  ghost function TakeWhole<R>(c: Cache<R>, r: R): Cache<R>
    requires r in c.meta
  {
    c.(totalAllocated := c.totalAllocated + c.meta[r].size, sizes := Without(c.sizes, r),
       meta := c.meta[r := c.meta[r].(isFree := false)])
  }

  ghost function FrontMeta(m: Meta, size: nat): Meta {
    Meta(m.ptr, size, m.chunk, 0, None, false, false)
  }

  ghost function BackMeta(m: Meta, size: nat): Meta
    requires size <= m.size
  {
    m.(ptr := m.ptr + size, size := m.size - size)
  }

  /** `novel` becomes the first `size` bytes of free region `r`, which keeps the rest. */
  ghost function Carve<R>(c: Cache<R>, r: R, size: nat, novel: R): Cache<R>
    requires Indexed(c) && r in c.meta && size <= c.meta[r].size && novel !in c.meta
  {
    WithoutElems(c.sizes, r);
    var meta' := c.meta[novel := FrontMeta(c.meta[r], size)][r := BackMeta(c.meta[r], size)];
    c.(totalAllocated := c.totalAllocated + size, adj := InsertAt(c.adj, IndexOf(c.adj, r), novel),
       sizes := Insert(Without(c.sizes, r), meta', r), meta := meta')
  }

  lemma TakeWholeIndexed<R>(c: Cache<R>, r: R)
    requires Indexed(c) && r in c.meta && c.meta[r].isFree
    ensures Indexed(TakeWhole(c, r))
  {
    WithoutListed(c.sizes, c.meta, r, TakeWhole(c, r).meta);
  }

  lemma TakeWholeValid<R>(c: Cache<R>, r: R)
    requires Valid(c) && r in c.meta && c.meta[r].isFree
    ensures Valid(TakeWhole(c, r)) && TakeWhole(c, r).meta[r].Pending()
  {
    hide Tiled, ListsFree, ListsLru, Sorted, Keyed;
    TakeWholeIndexed(c, r);
    var t, i := TapeOf(c.adj, c.meta), IndexOf(c.adj, r);
    TiledTake(c.chunks, t, i);
    assert TapeOf(c.adj, TakeWhole(c, r).meta) == t[i := t[i].(free := false)];
  }

  lemma CarveAdj<R>(c: Cache<R>, r: R, size: nat, novel: R)
    requires Indexed(c) && r in c.meta && size <= c.meta[r].size && novel !in c.meta
    ensures var c' := Carve(c, r, size, novel);
            ListsAll(c'.adj, c'.meta)
  {
    hide ListsFree, ListsLru, Sorted, States, Keyed;
    InsertAtElems(c.adj, IndexOf(c.adj, r), novel);
  }

  lemma CarveSizes<R>(c: Cache<R>, r: R, size: nat, novel: R)
    requires Indexed(c) && r in c.meta && c.meta[r].isFree && size <= c.meta[r].size && novel !in c.meta
    ensures var c' := Carve(c, r, size, novel);
            ListsFree(c'.sizes, c'.meta) && Sorted(c'.sizes, c'.meta)
  {
    hide ListsAll, ListsLru, States, Keyed;
    var mid := c.meta[novel := FrontMeta(c.meta[r], size)][r := c.meta[r].(isFree := false)];
    assert Carve(c, r, size, novel).meta == mid[r := BackMeta(c.meta[r], size)];
    WithoutElems(c.sizes, r);
    WithoutListed(c.sizes, c.meta, r, mid);
    InsertListed(Without(c.sizes, r), mid, r, BackMeta(c.meta[r], size));
  }

  lemma CarveIndexed<R>(c: Cache<R>, r: R, size: nat, novel: R)
    requires Indexed(c) && r in c.meta && c.meta[r].isFree && size <= c.meta[r].size && novel !in c.meta
    ensures Indexed(Carve(c, r, size, novel))
  {
    hide ListsFree, ListsAll, Sorted;
    CarveAdj(c, r, size, novel);
    CarveSizes(c, r, size, novel);
  }

  lemma CarveTape<R>(c: Cache<R>, r: R, size: nat, novel: R)
    requires Indexed(c) && r in c.meta && size <= c.meta[r].size && novel !in c.meta
    requires ListsAll(Carve(c, r, size, novel).adj, Carve(c, r, size, novel).meta)
    ensures var c' := Carve(c, r, size, novel);
            var t, i := TapeOf(c.adj, c.meta), IndexOf(c.adj, r);
            TapeOf(c'.adj, c'.meta) == InsertAt(t[i := Back(t[i], size)], i, Front(t[i], size))
  {
    hide ListsFree, ListsLru, Sorted, States, Keyed;
  }

  lemma CarveValid<R>(c: Cache<R>, r: R, size: nat, novel: R)
    requires Valid(c) && r in c.meta && c.meta[r].isFree && size <= c.meta[r].size && novel !in c.meta
    requires size % ALIGNMENT == 0
    ensures Valid(Carve(c, r, size, novel))
  {
    hide Tiled, ListsFree, ListsLru, Sorted, States, Keyed;
    CarveIndexed(c, r, size, novel);
    CarveTape(c, r, size, novel);
    TiledSplit(c.chunks, TapeOf(c.adj, c.meta), IndexOf(c.adj, r), size);
  }

  /** The region that `allocateFromFreeRegion` returns. */
  ghost function Taken<R>(c: Cache<R>, r: R, size: nat, novel: R): R
    requires r in c.meta
  {
    if c.meta[r].size == size then r else novel
  }

  ghost function AllocateFromFreeRegion<R>(c: Cache<R>, r: R, size: nat, novel: R): (c': Cache<R>)
    requires Valid(c) && r in c.meta && c.meta[r].isFree && size <= c.meta[r].size && novel !in c.meta
    requires size % ALIGNMENT == 0
    ensures Valid(c')
  {
    if c.meta[r].size == size then
      TakeWholeValid(c, r);
      TakeWhole(c, r)
    else
      CarveValid(c, r, size, novel);
      Carve(c, r, size, novel)
  }

  /** `n` is a new pending region of exactly `size` bytes, taken from a region that was not pinned;
      nothing that was pinned changes. */
  ghost predicate Granted<R>(meta: map<R, Meta>, meta': map<R, Meta>, n: R, size: nat) {
    && n in meta' && meta'[n].Pending() && meta'[n].size == size
    && (n in meta ==> !meta[n].Pinned())
    && (forall x | x in meta && meta[x].Pinned() :: x in meta' && meta'[x] == meta[x])
    && (forall x | x in meta' && meta'[x].Pinned() && x != n :: x in meta && meta[x].Pinned())
  }

  lemma AllocateFromFreeRegionGrants<R>(c: Cache<R>, r: R, size: nat, novel: R)
    requires Valid(c) && r in c.meta && c.meta[r].isFree && size <= c.meta[r].size && novel !in c.meta
    requires size % ALIGNMENT == 0
    ensures var c', n := AllocateFromFreeRegion(c, r, size, novel), Taken(c, r, size, novel);
            && Granted(c.meta, c'.meta, n, size) && c'.meta[n].ptr == c.meta[r].ptr
            && c'.meta[n].chunk == c.meta[r].chunk
            && c' == c.(adj := c'.adj, sizes := c'.sizes, meta := c'.meta, totalAllocated := c.totalAllocated + size)
  {
    hide Tiled, Mapped, ListsAll, ListsFree, ListsLru, Sorted, Keyed, TapeOf, Insert, Without, InsertAt;
    assert States(c.meta) && c.meta[r].Pinned() == false;
  }

  // ---------- addNewChunk ----------

  /** What the operating system promises about a new mapping. */
  ghost predicate CanMap(chunks: seq<Chunk>, k: Chunk) {
    k.ptr % ALIGNMENT == 0 && k.size % ALIGNMENT == 0 && forall i | 0 <= i < |chunks| :: Apart(chunks[i], k)
  }

  ghost function ChunkMeta(k: Chunk, index: nat): Meta {
    Meta(k.ptr, k.size, index, 0, None, true, false)
  }

  ghost function AddChunk<R>(c: Cache<R>, k: Chunk, novel: R): Cache<R>
    requires Indexed(c) && novel !in c.meta
  {
    var meta' := c.meta[novel := ChunkMeta(k, |c.chunks|)];
    c.(chunks := c.chunks + [k], totalChunks := c.totalChunks + k.size, adj := c.adj + [novel],
       sizes := Insert(c.sizes, meta', novel), meta := meta')
  }

  lemma AddChunkAdj<R>(c: Cache<R>, k: Chunk, novel: R)
    requires Indexed(c) && novel !in c.meta
    ensures var c' := AddChunk(c, k, novel);
            && ListsAll(c'.adj, c'.meta)
            && TapeOf(c'.adj, c'.meta) == TapeOf(c.adj, c.meta) + [Cell(k.ptr, k.size, |c.chunks|, true)]
  {
    hide ListsFree, ListsLru, Sorted, States, Keyed;
    InsertAtElems(c.adj, |c.adj|, novel);
    assert c.adj + [novel] == InsertAt(c.adj, |c.adj|, novel);
  }

  lemma AddChunkIndexed<R>(c: Cache<R>, k: Chunk, novel: R)
    requires Indexed(c) && novel !in c.meta
    ensures Indexed(AddChunk(c, k, novel))
  {
    hide Sorted;
    AddChunkAdj(c, k, novel);
    InsertListed(c.sizes, c.meta, novel, ChunkMeta(k, |c.chunks|));
  }

  lemma AddChunkValid<R>(c: Cache<R>, k: Chunk, novel: R)
    requires Valid(c) && novel !in c.meta && CanMap(c.chunks, k) && c.totalChunks + k.size <= c.maxTotal
    ensures Valid(AddChunk(c, k, novel))
  {
    hide Tiled, ListsFree, ListsLru, Sorted, States, Keyed;
    AddChunkIndexed(c, k, novel);
    AddChunkAdj(c, k, novel);
    TiledAppend(c.chunks, TapeOf(c.adj, c.meta), k);
    assert (c.chunks + [k])[..|c.chunks|] == c.chunks;
  }

  // ---------- allocate ----------

  ghost function RoundUp(x: nat, rounding: nat): (r: nat)
    requires rounding > 0
    ensures x <= r < x + rounding && r % rounding == 0
  {
    RoundUpBounds(x, rounding);
    (x + (rounding - 1)) / rounding * rounding
  }

  lemma RoundUpBounds(x: nat, rounding: nat)
    requires rounding > 0
    ensures var r := (x + (rounding - 1)) / rounding * rounding;
            x <= r < x + rounding && r % rounding == 0
  {
    var y := x + (rounding - 1);
    assert y == y / rounding * rounding + y % rounding;
    assert (y / rounding * rounding) % rounding == 0 by { MultipleMod(y / rounding, rounding); }
  }

  lemma MultipleAligned(a: nat, m: nat)
    requires m > 0 && a % m == 0 && m % ALIGNMENT == 0
    ensures a % ALIGNMENT == 0
  {
    var q, p := a / m, m / ALIGNMENT;
    assert a == q * (p * ALIGNMENT) == (q * p) * ALIGNMENT;
    MultipleMod(q * p, ALIGNMENT);
  }

  ghost function RequiredChunk<R>(c: Cache<R>, size: nat): (k: nat)
    requires Mapped(c)
    ensures k >= size && k >= MIN_CHUNK_SIZE && k % ALIGNMENT == 0
  {
    var rounded := RoundUp(size, c.pageSize);
    MultipleAligned(rounded, c.pageSize);
    if MIN_CHUNK_SIZE < rounded then rounded else MIN_CHUNK_SIZE
  }

  /** The eviction loop of `allocate`: evict until a coalesced region is large enough. */
  ghost function EvictUntilFits<R>(c: Cache<R>, size: nat): (e: (Cache<R>, Option<R>))
    requires Valid(c)
    ensures Valid(e.0)
    ensures e.1.Some? ==> e.1.value in e.0.meta && e.0.meta[e.1.value].isFree && e.0.meta[e.1.value].size >= size
    decreases |c.lru|
  {
    if c.lru == [] then (c, None)
    else
      var (c1, r) := EvictFrom(c, c.lru[0], size);
      if c1.meta[r].size < size then EvictUntilFits(c1, size) else (c1, Some(r))
  }

  lemma OldestIdle<R>(c: Cache<R>)
    requires Valid(c) && c.lru != []
    ensures c.lru[0] in c.meta && c.meta[c.lru[0]].inLru
  {
  }

  lemma {:induction false} EvictUntilFitsFrame<R>(c: Cache<R>, size: nat)
    requires Valid(c)
    ensures var (c', r) := EvictUntilFits(c, size);
            && KeepsPinned(c.meta, c'.meta) && KeysShrink(c.keys, c'.keys) && SameBudget(c, c')
            && (forall x | x in c'.meta :: x in c.meta)
            && (AllSmall(c.meta, size) && r.None? ==> AllSmall(c'.meta, size) && c'.lru == [])
    decreases |c.lru|
  {
    hide Valid, EvictFrom;
    if c.lru != [] {
      OldestIdle(c);
      EvictFromFrame(c, c.lru[0], size);
      var (c1, r) := EvictFrom(c, c.lru[0], size);
      if c1.meta[r].size < size {
        EvictUntilFitsFrame(c1, size);
      }
    }
  }

  /** A request may be served by a new chunk. */
  ghost predicate BudgetLeft<R>(c: Cache<R>, size: nat)
    requires Mapped(c)
  {
    c.totalChunks + RequiredChunk(c, size) <= c.maxTotal
  }

  ghost predicate NeedsChunk<R>(c: Cache<R>, size: nat)
    requires Valid(c)
  {
    LowerBound(c.sizes, c.meta, size) == |c.sizes| && BudgetLeft(c, size)
  }

  /** Names for the metadata records a call may create: `whole` for a new chunk, `novel` for the
      allocated region. */
  ghost predicate Names<R>(c: Cache<R>, size: nat, whole: R, novel: R)
    requires Valid(c)
  {
    whole !in c.meta && novel !in c.meta && (NeedsChunk(c, size) ==> whole != novel)
  }

  /** `chunk` is the mapping the operating system would return. */
  ghost function Allocate<R>(c: Cache<R>, request: nat, chunk: int, whole: R, novel: R): (e: (Cache<R>, Option<R>))
    requires Valid(c) && Names(c, RoundUp(request, ALIGNMENT), whole, novel)
    requires CanMap(c.chunks, Chunk(chunk, RequiredChunk(c, RoundUp(request, ALIGNMENT))))
    ensures Valid(e.0)
  {
    var size := RoundUp(request, ALIGNMENT);
    var u := LowerBound(c.sizes, c.meta, size);
    if u < |c.sizes| then
      (AllocateFromFreeRegion(c, c.sizes[u], size, novel), Some(Taken(c, c.sizes[u], size, novel)))
    else
      var required := RequiredChunk(c, size);
      if c.totalChunks + required <= c.maxTotal then
        AddChunkValid(c, Chunk(chunk, required), whole);
        var c1 := AddChunk(c, Chunk(chunk, required), whole);
        (AllocateFromFreeRegion(c1, whole, size, novel), Some(Taken(c1, whole, size, novel)))
      else
        var (c1, r) := EvictUntilFits(c, size);
        EvictUntilFitsFrame(c, size);
        if r.None? then (c1, None)
        else (AllocateFromFreeRegion(c1, r.value, size, novel), Some(Taken(c1, r.value, size, novel)))
  }
}
