/** The size counters of the cache against the regions they stand for. */
module CacheAccounting {
  import opened Arith
  import opened Lists
  import opened Tape
  import opened CacheRegions
  import opened CacheAllocate
  import opened CacheTheorems

  // ---------- Sums over the tape ----------

  ghost function FreeSize(a: Cell): nat { if a.free then a.size else 0 }

  ghost function FreeBytes(t: seq<Cell>): nat {
    if t == [] then 0 else FreeBytes(t[..|t| - 1]) + FreeSize(t[|t| - 1])
  }

  /** Bytes of the regions that are not free. */
  ghost function UsedBytes(t: seq<Cell>): nat {
    if t == [] then 0
    else UsedBytes(t[..|t| - 1]) + if t[|t| - 1].free then 0 else t[|t| - 1].size
  }

  lemma {:induction false} FreeUpdate(t: seq<Cell>, i: nat, a: Cell)
    requires i < |t|
    ensures FreeBytes(t[i := a]) == FreeBytes(t) - FreeSize(t[i]) + FreeSize(a)
  {
    var n := |t| - 1;
    if i < n {
      FreeUpdate(t[..n], i, a);
      assert t[i := a][..n] == t[..n][i := a];
    } else {
      assert t[i := a][..n] == t[..n];
    }
  }

  lemma {:induction false} FreeRemove(t: seq<Cell>, i: nat)
    requires i < |t|
    ensures FreeBytes(RemoveAt(t, i)) == FreeBytes(t) - FreeSize(t[i])
  {
    var n := |t| - 1;
    if i < n {
      FreeRemove(t[..n], i);
      assert RemoveAt(t, i)[..n - 1] == RemoveAt(t[..n], i);
      assert RemoveAt(t, i)[n - 1] == t[n];
    } else {
      assert RemoveAt(t, i) == t[..n];
    }
  }

  lemma {:induction false} FreeInsert(t: seq<Cell>, i: nat, a: Cell)
    requires i <= |t|
    ensures FreeBytes(InsertAt(t, i, a)) == FreeBytes(t) + FreeSize(a)
  {
    FreeRemove(InsertAt(t, i, a), i);
    assert RemoveAt(InsertAt(t, i, a), i) == t;
  }

  /** What the cells before position `i` add up to, given where cell `i` lies. */
  lemma {:induction false} PrefixBytes(chunks: seq<Chunk>, t: seq<Cell>, i: nat)
    requires Tiled(chunks, t) && i < |t|
    ensures t[i].chunk <= |chunks|
    ensures FreeBytes(t[..i]) + UsedBytes(t[..i])
         == ChunkSum(chunks[..t[i].chunk]) + t[i].ptr - chunks[t[i].chunk].ptr
  {
    if i > 0 {
      PrefixBytes(chunks, t, i - 1);
      assert JoinedAt(chunks, t, i - 1);
      assert t[..i][..i - 1] == t[..i - 1];
      if t[i].chunk != t[i - 1].chunk {
        assert chunks[..t[i].chunk][..t[i - 1].chunk] == chunks[..t[i - 1].chunk];
      }
    }
  }

  /** Conservation: free and allocated regions together are the mapped memory. */
  lemma Conserved(chunks: seq<Chunk>, t: seq<Cell>)
    requires Tiled(chunks, t)
    ensures FreeBytes(t) + UsedBytes(t) == ChunkSum(chunks)
  {
    if t != [] {
      var n := |t| - 1;
      PrefixBytes(chunks, t, n);
      assert chunks[..|chunks| - 1] == chunks[..t[n].chunk];
    }
  }

  // ---------- The counters ----------

  ghost function Free<R>(c: Cache<R>): nat
    requires Indexed(c)
  {
    FreeBytes(TapeOf(c.adj, c.meta))
  }

  /** How far `total_allocated_size` is off the mapped memory that is not free. */
  ghost function Drift<R>(c: Cache<R>): int
    requires Indexed(c)
  {
    c.totalAllocated - (c.totalChunks - Free(c))
  }

  /** The counter equals the sum of the allocated region sizes plus the drift. */
  lemma CounterIsSum<R>(c: Cache<R>)
    requires Valid(c)
    ensures c.totalAllocated == UsedBytes(TapeOf(c.adj, c.meta)) + Drift(c)
  {
    Conserved(c.chunks, TapeOf(c.adj, c.meta));
  }

  lemma AbsorbFree<R>(c: Cache<R>, d: nat, k: nat, m: Meta)
    requires Indexed(c) && d < |c.adj| && k < |c.adj| && (k == d + 1 || d == k + 1)
    requires c.meta[c.adj[k]].Pending() && c.meta[c.adj[d]].isFree && m.Pending()
    requires Indexed(Absorb(c, d, c.adj[k], m))
    ensures Free(Absorb(c, d, c.adj[k], m)) == Free(c) - c.meta[c.adj[d]].size
  {
    hide ListsFree, ListsLru, Sorted, States, Keyed;
    var t := TapeOf(c.adj, c.meta);
    var lo := if d < k then d else k;
    AbsorbTape(c, d, k, m);
    FreeRemove(t, d);
    FreeUpdate(RemoveAt(t, d), lo, CellOf(m));
  }

  lemma MergedFree<R>(c: Cache<R>, r: R)
    requires Valid(c) && r in c.meta && c.meta[r].Pending()
    ensures var c' := MergedLeft(c, r);
            Valid(c') && c'.meta[r].Pending() && Free(c') + c'.meta[r].size == Free(c) + c.meta[r].size
    ensures var c' := MergedRight(c, r);
            Valid(c') && c'.meta[r].Pending() && Free(c') + c'.meta[r].size == Free(c) + c.meta[r].size
  {
    hide Tiled, Mapped, ListsFree, ListsLru, Sorted, States, Keyed, Free;
    MergedLeftValid(c, r);
    MergedRightValid(c, r);
    var i := IndexOf(c.adj, r);
    if i > 0 && CanMerge(c.meta, r, c.adj[i - 1]) {
      AbsorbFree(c, i - 1, i, GrownLeft(c.meta[r], c.meta[c.adj[i - 1]]));
    }
    if i + 1 < |c.adj| && CanMerge(c.meta, r, c.adj[i + 1]) {
      AbsorbFree(c, i + 1, i, GrownRight(c.meta[r], c.meta[c.adj[i + 1]]));
    }
  }

  /** Freeing a region does not touch the counter: the drift grows by the size of the region. */
  lemma FreeRegionDrift<R>(c: Cache<R>, r: R)
    requires Valid(c) && r in c.meta && c.meta[r].Pending()
    ensures Drift(FreeRegion(c, r)) == Drift(c) + c.meta[r].size
  {
    hide Tiled, Mapped, ListsFree, ListsLru, Sorted, States, Keyed;
    var c1 := MergedLeft(c, r);
    MergedFree(c, r);
    var c2 := MergedRight(c1, r);
    MergedFree(c1, r);
    ReleasedTape(c2, r);
    var t, i := TapeOf(c2.adj, c2.meta), IndexOf(c2.adj, r);
    FreeUpdate(t, i, t[i].(free := true));
  }

  lemma EvictRegionDrift<R>(c: Cache<R>, r: R)
    requires Valid(c) && r in c.meta && c.meta[r].inLru
    ensures Drift(EvictRegion(c, r)) == Drift(c)
  {
    UnlinkedValid(c, r);
    hide Valid, FreeRegion;
    FreeRegionDrift(Unlinked(c, r), r);
    assert TapeOf(c.adj, Unlinked(c, r).meta) == TapeOf(c.adj, c.meta);
  }

  lemma {:induction false} EvictFromDrift<R>(c: Cache<R>, r: R, size: nat)
    requires Valid(c) && r in c.meta && c.meta[r].inLru
    ensures Drift(EvictFrom(c, r, size).0) == Drift(c)
    decreases |c.lru|
  {
    hide EvictRegion, Drift;
    EvictRegionDrift(c, r);
    var c1 := EvictRegion(c, r);
    if c1.meta[r].size < size && MayExtend(c1, r) {
      EvictFromDrift(c1, Next(c1, r), size);
    }
  }

  lemma TakeDrift<R>(c: Cache<R>, r: R, size: nat, novel: R)
    requires Valid(c) && r in c.meta && c.meta[r].isFree && size <= c.meta[r].size && novel !in c.meta
    requires size % ALIGNMENT == 0
    ensures Drift(AllocateFromFreeRegion(c, r, size, novel)) == Drift(c)
  {
    hide Tiled, ListsFree, ListsLru, Sorted, Keyed;
    var t, i := TapeOf(c.adj, c.meta), IndexOf(c.adj, r);
    if c.meta[r].size == size {
      TakeWholeValid(c, r);
      FreeUpdate(t, i, t[i].(free := false));
      assert TapeOf(c.adj, TakeWhole(c, r).meta) == t[i := t[i].(free := false)];
    } else {
      CarveValid(c, r, size, novel);
      CarveTape(c, r, size, novel);
      FreeUpdate(t, i, Back(t[i], size));
      FreeInsert(t[i := Back(t[i], size)], i, Front(t[i], size));
    }
  }

  lemma AddChunkDrift<R>(c: Cache<R>, k: Chunk, novel: R)
    requires Indexed(c) && novel !in c.meta
    ensures Indexed(AddChunk(c, k, novel)) && Drift(AddChunk(c, k, novel)) == Drift(c)
  {
    hide ListsFree, ListsLru, Sorted, States, Keyed;
    AddChunkIndexed(c, k, novel);
    AddChunkAdj(c, k, novel);
    var t := TapeOf(c.adj, c.meta);
    FreeInsert(t, |t|, Cell(k.ptr, k.size, |c.chunks|, true));
    assert InsertAt(t, |t|, Cell(k.ptr, k.size, |c.chunks|, true)) == t + [Cell(k.ptr, k.size, |c.chunks|, true)];
  }

  lemma {:induction false} EvictUntilFitsDrift<R>(c: Cache<R>, size: nat)
    requires Valid(c)
    ensures Drift(EvictUntilFits(c, size).0) == Drift(c)
    decreases |c.lru|
  {
    if c.lru != [] {
      OldestIdle(c);
      EvictFromDrift(c, c.lru[0], size);
      var (c1, r) := EvictFrom(c, c.lru[0], size);
      hide EvictFrom, Drift;
      if c1.meta[r].size < size {
        EvictUntilFitsDrift(c1, size);
      }
    }
  }

  /** Allocation keeps the counter in step with the regions, whatever it evicts or maps. */
  lemma AllocateDrift<R>(c: Cache<R>, request: nat, chunk: int, whole: R, novel: R)
    requires Valid(c) && Names(c, RoundUp(request, ALIGNMENT), whole, novel)
    requires CanMap(c.chunks, Chunk(chunk, RequiredChunk(c, RoundUp(request, ALIGNMENT))))
    ensures Drift(Allocate(c, request, chunk, whole, novel).0) == Drift(c)
  {
    hide Drift, AllocateFromFreeRegion, EvictUntilFits, AddChunk;
    var size := RoundUp(request, ALIGNMENT);
    var u := LowerBound(c.sizes, c.meta, size);
    if u < |c.sizes| {
      TakeDrift(c, c.sizes[u], size, novel);
    } else if BudgetLeft(c, size) {
      var k := Chunk(chunk, RequiredChunk(c, size));
      AddChunkDrift(c, k, whole);
      ServedByChunk(c, size, k, whole, novel);
      TakeDrift(AddChunk(c, k, whole), whole, size, novel);
    } else {
      EvictUntilFitsDrift(c, size);
      EvictUntilFitsFrame(c, size);
      var (c1, r) := EvictUntilFits(c, size);
      if r.Some? {
        TakeDrift(c1, r.value, size, novel);
      }
    }
  }
}
