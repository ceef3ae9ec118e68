/** What `allocate` promises, seen from the outside. */
module CacheTheorems {
  import opened Arith
  import opened Lists
  import opened Tape
  import opened CacheRegions
  import opened CacheAllocate

  lemma NoFit<R>(c: Cache<R>, size: nat)
    requires Valid(c) && LowerBound(c.sizes, c.meta, size) == |c.sizes|
    ensures AllSmall(c.meta, size)
  {
    forall x | x in c.meta && c.meta[x].isFree ensures c.meta[x].size < size {
      var i := IndexOf(c.sizes, x);
    }
  }

  /** The size multimap serves the best fit: no smaller free region would do. */
  lemma BestFit<R>(c: Cache<R>, size: nat, x: R)
    requires Valid(c) && LowerBound(c.sizes, c.meta, size) < |c.sizes|
    requires x in c.meta && c.meta[x].isFree && c.meta[x].size >= size
    ensures c.meta[c.sizes[LowerBound(c.sizes, c.meta, size)]].size <= c.meta[x].size
  {
    hide Tiled, Mapped, ListsAll, ListsLru, Keyed;
    var i := IndexOf(c.sizes, x);
  }

  ghost predicate Exhausted<R>(c: Cache<R>, c': Cache<R>, size: nat) {
    && KeepsPinned(c.meta, c'.meta) && c'.lru == [] && AllSmall(c'.meta, size) && c'.chunks == c.chunks
  }

  lemma GrantedAfter<R>(meta: map<R, Meta>, mid: map<R, Meta>, meta': map<R, Meta>, n: R, size: nat)
    requires KeepsPinned(meta, mid) && Granted(mid, meta', n, size)
    requires forall x | x in mid :: x in meta
    ensures Granted(meta, meta', n, size)
  {
  }

  lemma ServedByEviction<R>(c: Cache<R>, size: nat, novel: R)
    requires Valid(c) && size % ALIGNMENT == 0 && novel !in c.meta && AllSmall(c.meta, size)
    ensures var (c1, r) := EvictUntilFits(c, size);
            && novel !in c1.meta && SameBudget(c, c1) && KeysShrink(c.keys, c1.keys)
            && (r.None? ==> Exhausted(c, c1, size))
            && (r.Some? ==>
                  var c', n := AllocateFromFreeRegion(c1, r.value, size, novel), Taken(c1, r.value, size, novel);
                  Granted(c.meta, c'.meta, n, size) && SameBudget(c, c') && KeysShrink(c.keys, c'.keys))
  {
    hide Valid, EvictUntilFits, AllocateFromFreeRegion, Granted, AllSmall;
    EvictUntilFitsFrame(c, size);
    var (c1, r) := EvictUntilFits(c, size);
    if r.Some? {
      AllocateFromFreeRegionGrants(c1, r.value, size, novel);
      GrantedAfter(c.meta, c1.meta, AllocateFromFreeRegion(c1, r.value, size, novel).meta, Taken(c1, r.value, size, novel), size);
    }
  }

  lemma AddChunkKeeps<R>(c: Cache<R>, k: Chunk, whole: R, meta': map<R, Meta>, n: R, size: nat)
    requires Indexed(c) && whole !in c.meta && Granted(AddChunk(c, k, whole).meta, meta', n, size)
    ensures Granted(c.meta, meta', n, size)
  {
    hide ListsFree, ListsAll, ListsLru, Sorted, Keyed, Insert;
  }

  /** A granted region is new and exactly large enough, and leaves every pinned region alone.
      A refusal leaves nothing to evict and no free region that is large enough. */
  lemma AllocateResult<R>(c: Cache<R>, request: nat, chunk: int, whole: R, novel: R)
    requires Valid(c) && Names(c, RoundUp(request, ALIGNMENT), whole, novel)
    requires CanMap(c.chunks, Chunk(chunk, RequiredChunk(c, RoundUp(request, ALIGNMENT))))
    ensures var size := RoundUp(request, ALIGNMENT);
            var (c', res) := Allocate(c, request, chunk, whole, novel);
            && Valid(c') && c'.totalChunks <= c'.maxTotal == c.maxTotal
            && (res.Some? ==> Granted(c.meta, c'.meta, res.value, size))
            && (res.None? ==> !BudgetLeft(c, size) && Exhausted(c, c', size))
            && KeysShrink(c.keys, c'.keys) && c'.totalInUse == c.totalInUse
            && (c'.chunks == c.chunks || (AllSmall(c.meta, size) && BudgetLeft(c, size)))
  {
    hide Tiled, ListsAll, ListsLru, Sorted, States, Keyed, AllocateFromFreeRegion, EvictUntilFits, Granted, Exhausted,
      AddChunk, AllSmall;
    var size := RoundUp(request, ALIGNMENT);
    var u := LowerBound(c.sizes, c.meta, size);
    if u < |c.sizes| {
      AllocateFromFreeRegionGrants(c, c.sizes[u], size, novel);
    } else {
      NoFit(c, size);
      if BudgetLeft(c, size) {
        ServedByChunk(c, size, Chunk(chunk, RequiredChunk(c, size)), whole, novel);
      } else {
        ServedByEviction(c, size, novel);
      }
    }
  }

  lemma ServedByChunk<R>(c: Cache<R>, size: nat, k: Chunk, whole: R, novel: R)
    requires Valid(c) && novel !in c.meta && whole !in c.meta && whole != novel && size % ALIGNMENT == 0
    requires CanMap(c.chunks, k) && k.size >= size && c.totalChunks + k.size <= c.maxTotal
    ensures Valid(AddChunk(c, k, whole))
    ensures var c1 := AddChunk(c, k, whole);
            && novel !in c1.meta && whole in c1.meta && c1.meta[whole].isFree && size <= c1.meta[whole].size
            && Granted(c.meta, AllocateFromFreeRegion(c1, whole, size, novel).meta, Taken(c1, whole, size, novel), size)
            && AllocateFromFreeRegion(c1, whole, size, novel).keys == c.keys
            && AllocateFromFreeRegion(c1, whole, size, novel).totalInUse == c.totalInUse
            && AllocateFromFreeRegion(c1, whole, size, novel).maxTotal == c.maxTotal
  {
    hide Tiled, ListsFree, ListsAll, ListsLru, Sorted, States, Keyed, AllocateFromFreeRegion, Granted;
    AddChunkValid(c, k, whole);
    var c1 := AddChunk(c, k, whole);
    AllocateFromFreeRegionGrants(c1, whole, size, novel);
    AddChunkKeeps(c, k, whole, AllocateFromFreeRegion(c1, whole, size, novel).meta, Taken(c1, whole, size, novel), size);
  }

  // ---------- When a request is refused ----------

  /** The region overlaps the window of `size` bytes at `a`, or starts strictly inside it. */
  ghost predicate Meets(m: Meta, a: int, size: nat) {
    m.ptr < a + size && a < m.ptr + m.size
  }

  /** A window of `size` bytes of chunk `k` that no pinned region touches. */
  ghost predicate ClearWindow<R>(c: Cache<R>, k: nat, a: int, size: nat) {
    && k < |c.chunks| && c.chunks[k].ptr <= a && a + size <= c.chunks[k].ptr + c.chunks[k].size
    && forall r | r in c.meta && c.meta[r].Pinned() && c.meta[r].chunk == k :: !Meets(c.meta[r], a, size)
  }

  /** Two different regions of one chunk do not overlap. */
  lemma RegionsDisjoint<R>(c: Cache<R>, p: R, q: R)
    requires Valid(c) && p in c.meta && q in c.meta && p != q && c.meta[p].chunk == c.meta[q].chunk
    ensures End(CellOf(c.meta[p])) <= c.meta[q].ptr || End(CellOf(c.meta[q])) <= c.meta[p].ptr
  {
    hide Tiled, Mapped, ListsFree, ListsLru, Sorted, States, Keyed;
    var i, j := IndexOf(c.adj, p), IndexOf(c.adj, q);
    var t := TapeOf(c.adj, c.meta);
    if i < j {
      InOrder(c.chunks, t, i, j);
    } else {
      InOrder(c.chunks, t, j, i);
    }
  }

  /** Every byte of every chunk lies in exactly one region of that chunk. */
  lemma ByteInRegion<R>(c: Cache<R>, k: nat, x: int) returns (i: nat)
    requires Valid(c) && ChunkHas(c.chunks, k, x)
    ensures i < |c.adj| && c.meta[c.adj[i]].chunk == k && Has(CellOf(c.meta[c.adj[i]]), x)
  {
    var t := TapeOf(c.adj, c.meta);
    assert t != [];
    i := Covered(c.chunks, t, k, x, 0);
  }

  /** A region granted out of unpinned memory shows where the clear window was. */
  lemma GrantIsWindow<R>(c: Cache<R>, c': Cache<R>, n: R, size: nat)
    requires Valid(c') && c'.chunks == c.chunks && Granted(c.meta, c'.meta, n, size)
    ensures ClearWindow(c, c'.meta[n].chunk, c'.meta[n].ptr, size)
  {
    RegionInChunk(c', n);
    hide Valid;
    forall p | p in c.meta && c.meta[p].Pinned() && c.meta[p].chunk == c'.meta[n].chunk
      ensures !Meets(c.meta[p], c'.meta[n].ptr, size)
    {
      RegionsDisjoint(c', p, n);
    }
  }

  lemma RegionInChunk<R>(c: Cache<R>, n: R)
    requires Valid(c) && n in c.meta
    ensures InChunk(c.chunks, CellOf(c.meta[n]))
  {
    assert TapeOf(c.adj, c.meta)[IndexOf(c.adj, n)] == CellOf(c.meta[n]);
  }

  /** When everything unpinned is free and coalesced, a clear window lies inside one free region. */
  lemma WindowInOneRegion<R>(c: Cache<R>, k: nat, a: int, size: nat)
    requires Valid(c) && c.lru == [] && size > 0 && ClearWindow(c, k, a, size)
    ensures !AllSmall(c.meta, size)
  {
    var i := ByteInRegion(c, k, a);
    var m := c.meta[c.adj[i]];
    assert !m.Pinned();
    assert m.isFree;
    if m.size < size {
      NextInChunk(c, i);
      assert c.meta[c.adj[i + 1]].Pinned();
      assert Meets(c.meta[c.adj[i + 1]], a, size);
    }
  }

  lemma NextInChunk<R>(c: Cache<R>, i: nat)
    requires Valid(c) && i < |c.adj| && c.lru == [] && c.meta[c.adj[i]].isFree
    requires var m := c.meta[c.adj[i]];
             m.chunk < |c.chunks| && m.ptr + m.size < c.chunks[m.chunk].ptr + c.chunks[m.chunk].size
    ensures i + 1 < |c.adj| && c.meta[c.adj[i + 1]].chunk == c.meta[c.adj[i]].chunk
    ensures c.meta[c.adj[i + 1]].ptr == c.meta[c.adj[i]].ptr + c.meta[c.adj[i]].size
    ensures c.meta[c.adj[i + 1]].Pinned()
  {
    assert TapeOf(c.adj, c.meta)[i] == CellOf(c.meta[c.adj[i]]);
    JoinedRegions(c, i);
  }

  ghost predicate HasClearWindow<R>(c: Cache<R>, size: nat) {
    exists k: nat, a: int :: ClearWindow(c, k, a, size)
  }

  lemma ExhaustedHasNoWindow<R>(c: Cache<R>, c': Cache<R>, size: nat)
    requires Valid(c') && size > 0 && Exhausted(c, c', size)
    ensures !HasClearWindow(c, size)
  {
    if HasClearWindow(c, size) {
      var k: nat, a: int :| ClearWindow(c, k, a, size);
      hide Valid;
      assert ClearWindow(c', k, a, size);
      WindowInOneRegion(c', k, a, size);
    }
  }

  // ---------- What a request asks for ----------

  /** A request asks for `size` bytes, a multiple of 16; a chunk for it would have `need` bytes: 64 MiB, or
      as many whole pages as hold the request, if that is more. */
  ghost predicate Asks(page: nat, request: nat, size: nat, paged: nat, need: nat)
    requires page > 0
  {
    && LeastMultiple(size, request, 16) && LeastMultiple(paged, size, page)
    && need == if paged > 67108864 then paged else 67108864
  }

  lemma AsksFor<R>(c: Cache<R>, request: nat, size: nat, paged: nat, need: nat)
    requires Mapped(c) && Asks(c.pageSize, request, size, paged, need)
    ensures RoundUp(request, ALIGNMENT) == size && RequiredChunk(c, size) == need
  {
    hide RoundUp;
    LeastUnique(size, RoundUp(request, ALIGNMENT), request, 16);
    LeastUnique(paged, RoundUp(size, c.pageSize), size, c.pageSize);
  }

  /** `allocate`, for a request that asks for these sizes. */
  ghost function Served<R>(c: Cache<R>, request: nat, size: nat, paged: nat, need: nat, chunk: int, whole: R, novel: R)
    : (Cache<R>, Option<R>)
    requires Valid(c) && Asks(c.pageSize, request, size, paged, need)
    requires Names(c, size, whole, novel) && CanMap(c.chunks, Chunk(chunk, need))
  {
    AsksFor(c, request, size, paged, need);
    Allocate(c, request, chunk, whole, novel)
  }

  /** Allocation fails exactly when the budget admits no further chunk and every window of the
      rounded size, in every chunk, is touched by a region that is in use or being initialized. */
  lemma AllocateRefusesIff<R>(c: Cache<R>, request: nat, size: nat, paged: nat, need: nat, chunk: int, whole: R, novel: R)
    requires Valid(c) && request > 0 && Asks(c.pageSize, request, size, paged, need)
    requires Names(c, size, whole, novel) && CanMap(c.chunks, Chunk(chunk, need))
    ensures Served(c, request, size, paged, need, chunk, whole, novel).1.None?
       <==> c.totalChunks + need > c.maxTotal && !HasClearWindow(c, size)
  {
    AsksFor(c, request, size, paged, need);
    AllocateResult(c, request, chunk, whole, novel);
    assert Mapped(c);
    hide Valid, Allocate, Granted, Exhausted, Mapped, RoundUp, RequiredChunk;
    var (c', res) := Allocate(c, request, chunk, whole, novel);
    if res.None? {
      ExhaustedHasNoWindow(c, c', size);
    } else if !BudgetLeft(c, size) {
      GrantIsWindow(c, c', res.value, size);
    }
  }
}
