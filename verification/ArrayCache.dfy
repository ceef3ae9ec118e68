/** The cache as an object: metadata records linked into four containers, updated in place.
    Every method is tied to its value-level counterpart through `View`. */
module ArrayCache {
  import opened Lists
  import opened Tape
  import opened CacheRegions
  import opened CacheAllocate
  import opened CacheTheorems
  import opened CacheHolders

  class Region {
    var key: Option<Key>
    var ptr: int
    var size: nat
    var refcount: nat
    var chunk: nat
    /** Hook of the size multimap is linked. */
    var isFree: bool
    /** Hook of the LRU list is linked. */
    var inLru: bool

    constructor ()
      ensures refcount == 0 && !isFree && !inLru && key == None
    {
      key, ptr, size, refcount, chunk, isFree, inLru := None, 0, 0, 0, 0, false, false;
    }

    ghost function Value(): Meta
      reads this
    {
      Meta(ptr, size, chunk, refcount, key, isFree, inLru)
    }
  }

  /** `r` is linked, once, in an intrusive list. */
  ghost predicate Linked(list: seq<Region>, r: Region) {
    r in list && Distinct<Region?>(list)
  }

  /** `iterator_to`: where an element of an intrusive list is linked. */
  method PositionOf(list: seq<Region>, r: Region) returns (i: nat)
    requires Linked(list, r)
    ensures i < |list| && list[i] == r && i == IndexOf<Region?>(list, r)
  {
    i := 0;
    while list[i] != r
      invariant i < |list| && forall j | 0 <= j < i :: list[j] != r
      decreases |list| - i
    {
      i := i + 1;
      assert i == |list| ==> r !in list;
    }
  }

  method Erase(list: seq<Region>, r: Region) returns (rest: seq<Region>)
    requires Linked(list, r)
    ensures rest == Without<Region?>(list, r)
  {
    var i := PositionOf(list, r);
    rest := list[..i] + list[i + 1..];
    assert rest == RemoveAt<Region?>(list, i);
  }

  class ArrayCache {
    var lruList: seq<Region>
    var adjacencyList: seq<Region>
    var sizeMultimap: seq<Region>
    var keyMap: map<Key, Region>
    var chunks: seq<Chunk>
    var totalChunksSize: nat
    var totalAllocatedSize: int
    var totalSizeInUse: int
    const maxTotalSize: nat
    const pageSize: nat
    /** The records by value. */
    ghost var regions: map<Region?, Meta>

    constructor (maxTotalSize: nat, pageSize: nat)
      requires pageSize > 0 && pageSize % ALIGNMENT == 0
      ensures Coupled() && Valid(View()) && adjacencyList == [] && totalChunksSize == 0 && totalAllocatedSize == 0
      ensures this.maxTotalSize == maxTotalSize && this.pageSize == pageSize && lruList == [] && keyMap == map[] && chunks == []
    {
      lruList, adjacencyList, sizeMultimap, keyMap, chunks := [], [], [], map[], [];
      totalChunksSize, totalAllocatedSize, totalSizeInUse, regions := 0, 0, 0, map[];
      this.maxTotalSize := maxTotalSize;
      this.pageSize := pageSize;
      new;
      assert TapeOf(View().adj, View().meta) == [];
    }

    ghost predicate Coupled()
      reads this, adjacencyList
    {
      forall r: Region | r in adjacencyList :: r in regions && regions[r] == r.Value()
    }

    ghost function View(): Cache<Region?>
      reads this
    {
      Cache(lruList, adjacencyList, sizeMultimap, keyMap, regions,
            chunks, totalChunksSize, totalAllocatedSize, totalSizeInUse, maxTotalSize, pageSize)
    }

    /** What the containers of an indexed cache provide. */
    lemma Ready()
      requires Coupled() && Indexed(View())
      ensures Distinct<Region?>(adjacencyList) && null !in regions && forall r | r in regions :: r in adjacencyList
      ensures Distinct<Region?>(sizeMultimap)
      ensures forall i | 0 <= i < |sizeMultimap| :: sizeMultimap[i] in adjacencyList && sizeMultimap[i].isFree
      ensures forall r | r in adjacencyList && r.isFree :: r in sizeMultimap
    {
      hide Sorted, States, Keyed, ListsLru, Distinct;
    }

    lemma ReadyValid()
      requires Valid(View())
      ensures Indexed(View()) && Mapped(View()) && pageSize > 0
    {
    }

    lemma FreeAreLinked()
      requires Coupled() && Indexed(View())
      ensures forall r | r in adjacencyList && r.isFree :: Linked(sizeMultimap, r)
      ensures forall r | r in adjacencyList && r.inLru :: Linked(lruList, r)
    {
      hide Sorted, States, Keyed;
      forall r | r in adjacencyList ensures r in regions && regions[r] == r.Value() {}
    }

    // ---------- freeRegion ----------

    /** The neighbour at `d` is erased and destroyed; `r` takes over its bytes. */
    method Swallow(d: nat, r: Region, ptr: int, size: nat)
      requires Coupled() && d < |adjacencyList| && r in adjacencyList && r != adjacencyList[d]
      requires Distinct<Region?>(adjacencyList) && Linked(sizeMultimap, adjacencyList[d])
      modifies this`adjacencyList, this`sizeMultimap, this`regions, r`ptr, r`size
      ensures Coupled() && View() == Absorb(old(View()), d, r, old(r.Value()).(ptr := ptr, size := size))
    {
      hide Without, Distinct, RemoveAt;
      ghost var c := View();
      var dropped := adjacencyList[d];
      RemoveAtElems(c.adj, d);
      RemoveAtIs(c.adj, d);
      sizeMultimap := Erase(sizeMultimap, dropped);
      r.size := size;
      r.ptr := ptr;
      adjacencyList := adjacencyList[..d] + adjacencyList[d + 1..];
      regions := (regions - {dropped})[r := r.Value()];
    }

    /** Insertion into the ordered size multimap. */
    method InsertIntoSizeMultimap(r: Region)
      requires r in regions && r in adjacencyList && Coupled() && forall i | 0 <= i < |sizeMultimap| :: sizeMultimap[i] in adjacencyList
      modifies this`sizeMultimap
      ensures sizeMultimap == Insert<Region?>(old(sizeMultimap), regions, r)
    {
      var u := 0;
      while u < |sizeMultimap| && sizeMultimap[u].size <= r.size
        invariant u <= |sizeMultimap|
        invariant u + UpperBound<Region?>(sizeMultimap[u..], regions, r.size) == UpperBound<Region?>(sizeMultimap, regions, r.size)
      {
        assert sizeMultimap[u..][1..] == sizeMultimap[u + 1..];
        u := u + 1;
      }
      ghost var before := sizeMultimap;
      sizeMultimap := sizeMultimap[..u] + [r] + sizeMultimap[u..];
      assert sizeMultimap == InsertAt<Region?>(before, u, r);
    }

    /** Whether `r`, at `i`, is merged with its left neighbour. */
    lemma LeftNeighbour(r: Region, i: nat)
      requires Coupled() && Valid(View()) && i < |adjacencyList| && adjacencyList[i] == r && r.Value().Pending()
      requires i == IndexOf<Region?>(adjacencyList, r)
      ensures Distinct<Region?>(adjacencyList)
      ensures MergedLeft(View(), r) ==
        if i > 0 && adjacencyList[i - 1].chunk == r.chunk && adjacencyList[i - 1].isFree
        then Absorb(View(), i - 1, r, GrownLeft(r.Value(), adjacencyList[i - 1].Value())) else View()
      ensures i > 0 && adjacencyList[i - 1].isFree ==> Linked(sizeMultimap, adjacencyList[i - 1]) && r != adjacencyList[i - 1]
    {
      Ready();
      hide Tiled, Mapped, Sorted, States, Keyed, ListsLru, ListsFree, Absorb, Distinct;
    }

    lemma RightNeighbour(r: Region, i: nat)
      requires Coupled() && Valid(View()) && i < |adjacencyList| && adjacencyList[i] == r && r.Value().Pending()
      requires i == IndexOf<Region?>(adjacencyList, r)
      ensures Distinct<Region?>(adjacencyList)
      ensures MergedRight(View(), r) ==
        if i + 1 < |adjacencyList| && adjacencyList[i + 1].chunk == r.chunk && adjacencyList[i + 1].isFree
        then Absorb(View(), i + 1, r, GrownRight(r.Value(), adjacencyList[i + 1].Value())) else View()
      ensures i + 1 < |adjacencyList| && adjacencyList[i + 1].isFree ==>
        Linked(sizeMultimap, adjacencyList[i + 1]) && r != adjacencyList[i + 1]
    {
      Ready();
      hide Tiled, Mapped, Sorted, States, Keyed, ListsLru, ListsFree, Absorb, Distinct;
    }

    method CoalesceLeft(r: Region)
      requires Coupled() && Valid(View()) && r in adjacencyList && r.Value().Pending()
      modifies this`adjacencyList, this`sizeMultimap, this`regions, r`ptr, r`size
      ensures Coupled() && View() == MergedLeft(old(View()), r)
    {
      hide Valid, MergedLeft, Absorb, Distinct;
      ReadyValid();
      Ready();
      var i := PositionOf(adjacencyList, r);
      LeftNeighbour(r, i);
      if i > 0 && adjacencyList[i - 1].chunk == r.chunk && adjacencyList[i - 1].isFree {
        var left := adjacencyList[i - 1];
        Swallow(i - 1, r, r.ptr - left.size, r.size + left.size);
      }
    }

    method CoalesceRight(r: Region)
      requires Coupled() && Valid(View()) && r in adjacencyList && r.Value().Pending()
      modifies this`adjacencyList, this`sizeMultimap, this`regions, r`ptr, r`size
      ensures Coupled() && View() == MergedRight(old(View()), r)
    {
      hide Valid, MergedRight, Absorb, Distinct;
      ReadyValid();
      Ready();
      var i := PositionOf(adjacencyList, r);
      RightNeighbour(r, i);
      if i + 1 < |adjacencyList| && adjacencyList[i + 1].chunk == r.chunk && adjacencyList[i + 1].isFree {
        var right := adjacencyList[i + 1];
        Swallow(i + 1, r, r.ptr, r.size + right.size);
      }
    }

    method Link(r: Region)
      requires Coupled() && Indexed(View()) && r in adjacencyList && r.Value().Pending()
      modifies this`sizeMultimap, this`regions, r`isFree
      ensures Coupled() && View() == Released(old(View()), r)
    {
      hide Sorted, States, Keyed, ListsLru;
      r.isFree := true;
      regions := regions[r := r.Value()];
      InsertIntoSizeMultimap(r);
    }

    method FreeRegion(r: Region)
      requires Coupled() && Valid(View()) && r in adjacencyList && r.Value().Pending()
      modifies this`adjacencyList, this`sizeMultimap, this`regions, r`ptr, r`size, r`isFree
      ensures Coupled() && View() == CacheRegions.FreeRegion(old(View()), r)
    {
      hide Tiled, Mapped, Sorted, States, Keyed, ListsLru, ListsFree, MergedLeft, MergedRight, Released;
      ghost var c := View();
      MergedLeftValid(c, r);
      CoalesceLeft(r);
      ghost var c1 := View();
      MergedRightValid(c1, r);
      CoalesceRight(r);
      Link(r);
    }

    // ---------- Eviction ----------

    method Unlink(r: Region)
      requires Coupled() && r in adjacencyList && Linked(lruList, r)
      modifies this`lruList, this`keyMap, this`totalAllocatedSize, this`regions, r`inLru
      ensures Coupled() && View() == Unlinked(old(View()), r)
    {
      hide Without;
      totalAllocatedSize := totalAllocatedSize - r.size;
      lruList := Erase(lruList, r);
      if r.key.Some? && r.key.value in keyMap && keyMap[r.key.value] == r {
        keyMap := keyMap - {r.key.value};
      }
      r.inLru := false;
      regions := regions[r := r.Value()];
    }

    method EvictRegion(r: Region)
      requires Coupled() && Valid(View()) && r in adjacencyList && r.inLru
      modifies this, r
      ensures Coupled() && View() == CacheAllocate.EvictRegion(old(View()), r)
      ensures r in adjacencyList && forall x: Region | x in adjacencyList :: x in old(adjacencyList)
    {
      ghost var c := View();
      FreeAreLinked();
      UnlinkedValid(c, r);
      EvictRegionFrame(c, r);
      hide Tiled, Mapped, Sorted, States, Keyed, ListsLru, ListsFree, Unlinked, CacheRegions.FreeRegion;
      Unlink(r);
      FreeRegion(r);
    }

    /** The right neighbour, if the eviction loop may go on with it. */
    method NextEvictable(it: Region) returns (n: Region?)
      requires Coupled() && Valid(View()) && it in adjacencyList
      ensures n != null <==> MayExtend(View(), it)
      ensures n != null ==> n in adjacencyList && n.inLru && n == Next(View(), it)
    {
      hide Tiled, Mapped, Sorted, States, Keyed, ListsLru, ListsFree;
      var i := PositionOf(adjacencyList, it);
      if i + 1 == |adjacencyList| || adjacencyList[i + 1].chunk != it.chunk || !adjacencyList[i + 1].inLru {
        return null;
      }
      return adjacencyList[i + 1];
    }

    method EvictSome(requestedSize: nat) returns (res: Region?)
      requires Coupled() && Valid(View())
      modifies this, adjacencyList
      ensures Coupled() && Valid(View()) && (res == null <==> old(lruList) == [])
      ensures res == null ==> View() == old(View())
      ensures res != null ==> (View(), res) == EvictFrom(old(View()), old(lruList[0]), requestedSize)
      ensures res != null ==> res in adjacencyList && res in old(adjacencyList)
      ensures forall x: Region | x in adjacencyList :: x in old(adjacencyList)
    {
      if lruList == [] {
        return null;
      }
      ghost var c0 := View();
      var it := lruList[0];
      OldestIdle(c0);
      hide Valid, CacheAllocate.EvictRegion, MayExtend, Next;
      while true
        invariant Coupled() && Valid(View()) && it in adjacencyList && it.inLru
        invariant forall r: Region | r in adjacencyList :: r in old(adjacencyList)
        invariant EvictFrom(View(), it, requestedSize) == EvictFrom(c0, c0.lru[0], requestedSize)
        decreases |lruList|
      {
        EvictRegion(it);
        if it.size >= requestedSize {
          return it;
        }
        var n := NextEvictable(it);
        if n == null {
          return it;
        }
        it := n;
      }
    }

    // ---------- Allocation ----------

    method TakeWholeRegion(r: Region)
      requires Coupled() && r in adjacencyList && Linked(sizeMultimap, r)
      modifies this`totalAllocatedSize, this`sizeMultimap, this`regions, r`isFree
      ensures Coupled() && View() == TakeWhole(old(View()), r)
    {
      hide Without;
      totalAllocatedSize := totalAllocatedSize + r.size;
      sizeMultimap := Erase(sizeMultimap, r);
      r.isFree := false;
      regions := regions[r := r.Value()];
    }

    /** A new record for the first `size` bytes of `r`, linked in front of it. */
    method LinkFront(r: Region, size: nat) returns (taken: Region)
      requires Coupled() && Distinct<Region?>(adjacencyList) && r in adjacencyList
      requires forall x | x in regions :: x in adjacencyList
      modifies this`adjacencyList, this`regions
      ensures fresh(taken) && taken !in old(regions) && Coupled() && taken in adjacencyList
      ensures r in adjacencyList && forall x | x in old(adjacencyList) :: x in adjacencyList
      ensures adjacencyList == InsertAt<Region?>(old(adjacencyList), IndexOf<Region?>(old(adjacencyList), r), taken)
      ensures regions == old(regions)[taken := FrontMeta(r.Value(), size)]
    {
      hide Distinct, InsertAt;
      taken := new Region();
      ghost var adj := adjacencyList;
      taken.ptr, taken.chunk, taken.size := r.ptr, r.chunk, size;
      var i := PositionOf(adjacencyList, r);
      InsertAtElems<Region?>(adj, i, taken);
      InsertAtIs<Region?>(adj, i, taken);
      regions := regions[taken := taken.Value()];
      adjacencyList := adjacencyList[..i] + [taken] + adjacencyList[i..];
    }

    /** The free region gives up its first `size` bytes and is sorted in anew. */
    method ShrinkFree(r: Region, size: nat)
      requires Coupled() && r in adjacencyList && r in sizeMultimap && Distinct<Region?>(sizeMultimap) && size <= r.size
      requires forall i | 0 <= i < |sizeMultimap| :: sizeMultimap[i] in adjacencyList
      modifies this`sizeMultimap, this`regions, r`ptr, r`size
      ensures Coupled() && regions == old(regions)[r := BackMeta(old(r.Value()), size)]
      ensures forall x | x in Without<Region?>(old(sizeMultimap), r) :: x in regions
      ensures sizeMultimap == Insert<Region?>(Without<Region?>(old(sizeMultimap), r), regions, r)
    {
      WithoutElems<Region?>(sizeMultimap, r);
      sizeMultimap := Erase(sizeMultimap, r);
      r.size := r.size - size;
      r.ptr := r.ptr + size;
      regions := regions[r := r.Value()];
      InsertIntoSizeMultimap(r);
    }

    method CarveRegion(r: Region, size: nat) returns (taken: Region)
      requires Coupled() && Indexed(View()) && r in adjacencyList && r.isFree && size <= r.size
      modifies this`totalAllocatedSize, this`sizeMultimap, this`adjacencyList, this`regions, r`ptr, r`size
      ensures fresh(taken) && taken in adjacencyList
      ensures taken !in old(regions) && Coupled() && View() == Carve(old(View()), r, size, taken)
    {
      hide Indexed, Insert, Without, InsertAt, Distinct;
      Ready();
      totalAllocatedSize := totalAllocatedSize + size;
      taken := LinkFront(r, size);
      ShrinkFree(r, size);
    }

    method AllocateFromFreeRegion(r: Region, size: nat) returns (taken: Region, ghost novel: Region?)
      requires Coupled() && Valid(View()) && r in adjacencyList && r.isFree && size <= r.size && size % ALIGNMENT == 0
      modifies this, r
      ensures novel !in old(regions) && (novel == null || fresh(novel)) && taken in adjacencyList
      ensures taken == Taken(old(View()), r, size, novel)
      ensures Coupled() && View() == CacheAllocate.AllocateFromFreeRegion(old(View()), r, size, novel)
    {
      FreeAreLinked();
      hide Tiled, Mapped, Sorted, States, Keyed, ListsLru, ListsFree, Carve, TakeWhole;
      if r.size == size {
        novel := null;
        TakeWholeRegion(r);
        taken := r;
      } else {
        taken := CarveRegion(r, size);
        novel := taken;
      }
    }

    /** A record for the bytes of a new chunk, linked behind all others. */
    method LinkBack(size: nat, mapping: int) returns (whole: Region)
      requires Coupled() && forall r | r in regions :: r in adjacencyList
      modifies this`adjacencyList, this`regions
      ensures fresh(whole) && whole !in old(regions) && Coupled() && whole.isFree && whole.size == size
      ensures adjacencyList == old(adjacencyList) + [whole]
      ensures regions == old(regions)[whole := ChunkMeta(Chunk(mapping, size), |chunks|)]
    {
      whole := new Region();
      whole.ptr, whole.chunk, whole.size := mapping, |chunks|, size;
      whole.isFree := true;
      adjacencyList := adjacencyList + [whole];
      regions := regions[whole := whole.Value()];
    }

    method AddNewChunk(size: nat, mapping: int) returns (whole: Region)
      requires Coupled() && Indexed(View())
      modifies this`chunks, this`totalChunksSize, this`adjacencyList, this`sizeMultimap, this`regions
      ensures fresh(whole) && whole in adjacencyList && whole.isFree && whole.size == size
      ensures whole !in old(regions) && Coupled() && View() == AddChunk(old(View()), Chunk(mapping, size), whole)
    {
      hide Sorted, States, Keyed, ListsLru, Insert;
      whole := LinkBack(size, mapping);
      chunks := chunks + [Chunk(mapping, size)];
      totalChunksSize := totalChunksSize + size;
      InsertIntoSizeMultimap(whole);
    }

    /** `lower_bound` on the size multimap; null stands for its end. */
    method FindFree(size: nat) returns (r: Region?)
      requires Coupled() && Indexed(View())
      ensures r == null <==> LowerBound<Region?>(sizeMultimap, regions, size) == |sizeMultimap|
      ensures r != null ==> r == sizeMultimap[LowerBound<Region?>(sizeMultimap, regions, size)]
      ensures r != null ==> r in adjacencyList && r.isFree && r.size >= size
    {
      hide Indexed, Distinct;
      Ready();
      var u := 0;
      while u < |sizeMultimap| && sizeMultimap[u].size < size
        invariant u <= |sizeMultimap|
        invariant u + LowerBound<Region?>(sizeMultimap[u..], regions, size) == LowerBound<Region?>(sizeMultimap, regions, size)
      {
        assert sizeMultimap[u..][1..] == sizeMultimap[u + 1..];
        u := u + 1;
      }
      if u < |sizeMultimap| {
        return sizeMultimap[u];
      }
      return null;
    }

    /** The loop that evicts until the request fits. */
    method EvictEnough(size: nat) returns (res: Region?)
      requires Coupled() && Valid(View())
      modifies this, adjacencyList
      ensures Coupled() && (res != null ==> res in adjacencyList && res in old(adjacencyList))
      ensures (View(), if res == null then None else Some(res)) == EvictUntilFits(old(View()), size)
    {
      ghost var c0 := View();
      hide Valid, EvictFrom;
      while true
        invariant Coupled() && Valid(View())
        invariant forall r: Region | r in adjacencyList :: r in old(adjacencyList)
        invariant EvictUntilFits(View(), size) == EvictUntilFits(c0, size)
        decreases |lruList|
      {
        ghost var c := View();
        if lruList != [] {
          OldestIdle(c);
        }
        assert forall i | 0 <= i < |adjacencyList| :: adjacencyList[i] in old(adjacencyList);
        res := EvictSome(size);
        if res == null || res.size >= size {
          return;
        }
      }
    }

    /** The size of the chunk that a request needs. */
    method RequiredSize(size: nat) returns (required: nat)
      requires Mapped(View())
      ensures required == RequiredChunk(View(), size)
    {
      var rounded := (size + (pageSize - 1)) / pageSize * pageSize;
      required := if MIN_CHUNK_SIZE < rounded then rounded else MIN_CHUNK_SIZE;
    }

    lemma Rounded(request: nat)
      ensures (request + 15) / 16 * 16 == RoundUp(request, ALIGNMENT)
    {
    }

    /** `mapping` is the address `mmap` returns when the request needs a new chunk. */
    method Allocate(request: nat, mapping: int) returns (res: Region?, ghost whole: Region?, ghost novel: Region?)
      requires Coupled() && Valid(View())
      requires CanMap(chunks, Chunk(mapping, RequiredChunk(View(), RoundUp(request, ALIGNMENT))))
      modifies this, adjacencyList
      ensures Names(old(View()), RoundUp(request, ALIGNMENT), whole, novel)
      ensures Coupled() && (res != null ==> res in adjacencyList)
      ensures (View(), if res == null then None else Some(res))
           == CacheAllocate.Allocate(old(View()), request, mapping, whole, novel)
    {
      hide Valid, Indexed, Mapped, Distinct, LowerBound, CacheAllocate.AllocateFromFreeRegion, Taken, AddChunk, EvictUntilFits,
           RoundUp, RequiredChunk, CanMap;
      ghost var c := View();
      ReadyValid();
      Ready();
      var size := (request + 15) / 16 * 16;
      Rounded(request);
      whole, novel := null, null;
      var it := FindFree(size);
      if it != null {
        res, novel := AllocateFromFreeRegion(it, size);
        return;
      }
      var required := RequiredSize(size);
      if totalChunksSize + required <= maxTotalSize {
        AddChunkValid(c, Chunk(mapping, required), null);
        res := AddNewChunk(required, mapping);
        whole := res;
        AddChunkValid(c, Chunk(mapping, required), whole);
        res, novel := AllocateFromFreeRegion(res, size);
        return;
      }
      res := EvictEnough(size);
      if res != null {
        res, novel := AllocateFromFreeRegion(res, size);
      }
    }

    // ---------- Holders ----------

    /** Constructor of a holder. */
    method AcquireHolder(r: Region)
      requires Coupled() && r in adjacencyList && !r.isFree && (r.inLru ==> Linked(lruList, r))
      modifies this`lruList, this`totalSizeInUse, this`regions, r`refcount, r`inLru
      ensures Coupled() && View() == Hold(old(View()), r)
    {
      hide Without;
      r.refcount := r.refcount + 1;
      if r.refcount == 1 && r.inLru {
        lruList := Erase(lruList, r);
        r.inLru := false;
      }
      totalSizeInUse := totalSizeInUse + r.size;
      regions := regions[r := r.Value()];
    }

    /** Destructor of a holder. */
    method ReleaseHolder(r: Region)
      requires Coupled() && r in adjacencyList && r.refcount > 0
      modifies this`lruList, this`totalSizeInUse, this`regions, r`refcount, r`inLru
      ensures Coupled() && View() == Unhold(old(View()), r)
    {
      r.refcount := r.refcount - 1;
      if r.refcount == 0 {
        lruList := lruList + [r];
        r.inLru := true;
      }
      totalSizeInUse := totalSizeInUse - r.size;
      regions := regions[r := r.Value()];
    }
  }
}
