/** Regions of the cache as values: `R` is the identity of a region metadata record. */
module CacheRegions {
  import opened Lists
  import opened Tape

  type Key = int

  datatype Option<+T> = None | Some(value: T)

  const MIN_CHUNK_SIZE: nat := 64 * 1024 * 1024

  /** `isFree` and `inLru` are the link states of the size multimap hook and of the LRU hook.
      `chunk` is the position of the chunk in the chunk list; the source compares base
      addresses, which differ exactly when the positions do. */
  datatype Meta = Meta(ptr: int, size: nat, chunk: nat, refcount: nat, key: Option<Key>,
                       isFree: bool, inLru: bool)
  {
    /** Allocated, but no holder wraps the region yet: its owner still initializes it. */
    ghost predicate Pending() { !isFree && !inLru && refcount == 0 }

    /** Held by somebody or being initialized: must not be evicted. */
    ghost predicate Pinned() { !isFree && !inLru }
  }

  datatype Cache<+R> = Cache(
    lru: seq<R>, adj: seq<R>, sizes: seq<R>, keys: map<Key, R>, meta: map<R, Meta>,
    chunks: seq<Chunk>, totalChunks: nat, totalAllocated: int, totalInUse: int,
    maxTotal: nat, pageSize: nat)

  // ---------- The invariant ----------

  /** The list holds exactly the regions of `meta` that satisfy a link state. */
  ghost predicate ListsFree<R>(s: seq<R>, meta: map<R, Meta>) {
    && Distinct(s)
    && (forall i | 0 <= i < |s| :: s[i] in meta && meta[s[i]].isFree)
    && (forall r | r in meta && meta[r].isFree :: r in s)
  }

  ghost predicate ListsLru<R>(s: seq<R>, meta: map<R, Meta>) {
    && Distinct(s)
    && (forall i | 0 <= i < |s| :: s[i] in meta && meta[s[i]].inLru)
    && (forall r | r in meta && meta[r].inLru :: r in s)
  }

  ghost predicate ListsAll<R>(s: seq<R>, meta: map<R, Meta>) {
    && Distinct(s)
    && (forall i | 0 <= i < |s| :: s[i] in meta)
    && (forall r | r in meta :: r in s)
  }

  ghost predicate Sorted<R>(sizes: seq<R>, meta: map<R, Meta>)
    requires ListsFree(sizes, meta)
  {
    forall i, j | 0 <= i < j < |sizes| :: meta[sizes[i]].size <= meta[sizes[j]].size
  }

  /** No region is linked twice, and free, idle and held exclude each other. */
  ghost predicate States<R>(meta: map<R, Meta>) {
    forall r | r in meta ::
      (meta[r].isFree ==> !meta[r].inLru && meta[r].refcount == 0) && (meta[r].inLru ==> meta[r].refcount == 0)
  }

  /** The key map leads to allocated, initialized regions with that key. */
  ghost predicate Keyed<R>(keys: map<Key, R>, meta: map<R, Meta>) {
    forall k | k in keys ::
      && keys[k] in meta && meta[keys[k]].key == Some(k)
      && !meta[keys[k]].isFree && !meta[keys[k]].Pending()
  }

  ghost function CellOf(m: Meta): Cell {
    Cell(m.ptr, m.size, m.chunk, m.isFree)
  }

  ghost function TapeOf<R>(adj: seq<R>, meta: map<R, Meta>): (t: seq<Cell>)
    requires ListsAll(adj, meta)
  {
    seq(|adj|, i requires 0 <= i < |adj| => CellOf(meta[adj[i]]))
  }

  ghost function ChunkSum(chunks: seq<Chunk>): nat {
    if chunks == [] then 0 else ChunkSum(chunks[..|chunks| - 1]) + chunks[|chunks| - 1].size
  }

  ghost predicate Apart(a: Chunk, b: Chunk) {
    a.ptr + a.size <= b.ptr || b.ptr + b.size <= a.ptr
  }

  /** The mapped chunks do not overlap and stay within the budget. */
  ghost predicate Mapped<R>(c: Cache<R>) {
    && (forall i, j | 0 <= i < j < |c.chunks| :: Apart(c.chunks[i], c.chunks[j]))
    && c.totalChunks == ChunkSum(c.chunks) <= c.maxTotal
    && c.pageSize > 0 && c.pageSize % ALIGNMENT == 0
  }

  /** Adjacency list, size multimap, LRU list and key map agree with the regions. */
  ghost predicate Indexed<R>(c: Cache<R>) {
    && ListsAll(c.adj, c.meta) && ListsFree(c.sizes, c.meta) && ListsLru(c.lru, c.meta)
    && Sorted(c.sizes, c.meta) && States(c.meta) && Keyed(c.keys, c.meta)
  }

  ghost predicate Valid<R>(c: Cache<R>) {
    Indexed(c) && Tiled(c.chunks, TapeOf(c.adj, c.meta)) && Mapped(c)
  }

  // ---------- The size multimap ----------

  /** Position at which a multiset inserts an element: behind all elements that are not greater. */
  ghost function UpperBound<R>(sizes: seq<R>, meta: map<R, Meta>, size: nat): (u: nat)
    requires forall i | 0 <= i < |sizes| :: sizes[i] in meta
    ensures u <= |sizes|
  {
    if sizes == [] then 0
    else if meta[sizes[0]].size <= size then 1 + UpperBound(sizes[1..], meta, size)
    else 0
  }

  /** First element that is at least `size`, as `lower_bound` on the size multimap. */
  ghost function LowerBound<R>(sizes: seq<R>, meta: map<R, Meta>, size: nat): (u: nat)
    requires forall i | 0 <= i < |sizes| :: sizes[i] in meta
    ensures u <= |sizes|
    ensures forall i | 0 <= i < u :: meta[sizes[i]].size < size
    ensures u < |sizes| ==> meta[sizes[u]].size >= size
  {
    if sizes == [] then 0
    else if meta[sizes[0]].size < size then 1 + LowerBound(sizes[1..], meta, size)
    else 0
  }

  ghost function Insert<R>(sizes: seq<R>, meta: map<R, Meta>, r: R): seq<R>
    requires r in meta && forall i | 0 <= i < |sizes| :: sizes[i] in meta
  {
    InsertAt(sizes, UpperBound(sizes, meta, meta[r].size), r)
  }

  lemma UpperBoundSplits<R>(sizes: seq<R>, meta: map<R, Meta>, size: nat)
    requires forall i | 0 <= i < |sizes| :: sizes[i] in meta
    requires forall i, j | 0 <= i < j < |sizes| :: meta[sizes[i]].size <= meta[sizes[j]].size
    ensures var u := UpperBound(sizes, meta, size);
            && (forall i | 0 <= i < u :: meta[sizes[i]].size <= size)
            && (forall i | u <= i < |sizes| :: meta[sizes[i]].size > size)
  {
    if sizes != [] && meta[sizes[0]].size <= size {
      UpperBoundSplits(sizes[1..], meta, size);
      var u := UpperBound(sizes[1..], meta, size);
      forall i | u + 1 <= i < |sizes| ensures meta[sizes[i]].size > size {
        assert sizes[1..][i - 1] == sizes[i];
      }
    }
  }

  lemma InsertSorted<R>(sizes: seq<R>, meta: map<R, Meta>, r: R)
    requires r in meta && forall i | 0 <= i < |sizes| :: sizes[i] in meta
    requires forall i, j | 0 <= i < j < |sizes| :: meta[sizes[i]].size <= meta[sizes[j]].size
    ensures var s := Insert(sizes, meta, r);
            && (forall i | 0 <= i < |s| :: s[i] in meta)
            && (forall i, j | 0 <= i < j < |s| :: meta[s[i]].size <= meta[s[j]].size)
  {
    UpperBoundSplits(sizes, meta, meta[r].size);
  }

  /** Among regions of equal size the new one comes last, so that the one freed first is taken first. */
  lemma InsertLast<R>(sizes: seq<R>, meta: map<R, Meta>, r: R) returns (u: nat)
    requires r in meta && forall i | 0 <= i < |sizes| :: sizes[i] in meta
    requires forall i, j | 0 <= i < j < |sizes| :: meta[sizes[i]].size <= meta[sizes[j]].size
    ensures u <= |sizes| && Insert(sizes, meta, r) == sizes[..u] + [r] + sizes[u..]
    ensures forall i | 0 <= i < |sizes| :: meta[sizes[i]].size <= meta[r].size <==> i < u
  {
    u := UpperBound(sizes, meta, meta[r].size);
    UpperBoundSplits(sizes, meta, meta[r].size);
    InsertAtIs(sizes, u, r);
  }

  /** Linking one more region into the multimap. */
  lemma InsertListed<R>(sizes: seq<R>, meta: map<R, Meta>, r: R, m: Meta)
    requires ListsFree(sizes, meta) && Sorted(sizes, meta) && r !in sizes && m.isFree
    ensures ListsFree(Insert(sizes, meta[r := m], r), meta[r := m])
    ensures Sorted(Insert(sizes, meta[r := m], r), meta[r := m])
  {
    var meta' := meta[r := m];
    forall i | 0 <= i < |sizes| ensures sizes[i] in meta' && meta'[sizes[i]] == meta[sizes[i]] {}
    InsertSorted(sizes, meta', r);
    InsertAtElems(sizes, UpperBound(sizes, meta', m.size), r);
  }

  /** Unlinking a region that changes to a state that is not free, or disappears. */
  lemma WithoutListed<R>(sizes: seq<R>, meta: map<R, Meta>, x: R, meta': map<R, Meta>)
    requires ListsFree(sizes, meta) && Sorted(sizes, meta)
    requires x in meta' ==> !meta'[x].isFree
    requires forall r | r in meta && r != x && meta[r].isFree :: r in meta' && meta'[r] == meta[r]
    requires forall r | r in meta' && meta'[r].isFree :: r in meta && meta[r].isFree
    ensures ListsFree(Without(sizes, x), meta') && Sorted(Without(sizes, x), meta')
  {
    WithoutElems(sizes, x);
  }

  // ---------- freeRegion ----------

  ghost predicate CanMerge<R>(meta: map<R, Meta>, r: R, n: R)
    requires r in meta && n in meta
  {
    meta[n].chunk == meta[r].chunk && meta[n].isFree
  }

  /** The region at position `d` is erased from the adjacency list and the size multimap, and
      its neighbour `keep` gets metadata `m`. */
  ghost function Absorb<R>(c: Cache<R>, d: nat, keep: R, m: Meta): Cache<R>
    requires d < |c.adj|
  {
    c.(adj := RemoveAt(c.adj, d), sizes := Without(c.sizes, c.adj[d]), meta := (c.meta - {c.adj[d]})[keep := m])
  }

  ghost function GrownLeft(b: Meta, left: Meta): Meta {
    b.(ptr := b.ptr - left.size, size := b.size + left.size)
  }

  ghost function GrownRight(b: Meta, right: Meta): Meta {
    b.(size := b.size + right.size)
  }

  lemma AbsorbLists<R>(c: Cache<R>, d: nat, k: nat, m: Meta)
    requires ListsAll(c.adj, c.meta) && d < |c.adj| && k < |c.adj| && k != d
    ensures var c' := Absorb(c, d, c.adj[k], m);
            ListsAll(c'.adj, c'.meta)
  {
    RemoveAtElems(c.adj, d);
  }

  lemma AbsorbTape<R>(c: Cache<R>, d: nat, k: nat, m: Meta)
    requires ListsAll(c.adj, c.meta) && d < |c.adj| && k < |c.adj| && (k == d + 1 || d == k + 1)
    ensures var c' := Absorb(c, d, c.adj[k], m);
            && ListsAll(c'.adj, c'.meta)
            && TapeOf(c'.adj, c'.meta) == RemoveAt(TapeOf(c.adj, c.meta), d)[if d < k then d else k := CellOf(m)]
  {
    AbsorbLists(c, d, k, m);
  }

  lemma AbsorbIndexed<R>(c: Cache<R>, d: nat, k: nat, m: Meta)
    requires Indexed(c) && d < |c.adj| && k < |c.adj| && (k == d + 1 || d == k + 1)
    requires c.meta[c.adj[k]].Pending() && c.meta[c.adj[d]].isFree && m.Pending()
    ensures Indexed(Absorb(c, d, c.adj[k], m))
  {
    var c' := Absorb(c, d, c.adj[k], m);
    AbsorbLists(c, d, k, m);
    WithoutListed(c.sizes, c.meta, c.adj[d], c'.meta);
  }

  /** `keep` at position `k` absorbs the free neighbour at position `d` of the same chunk. */
  lemma AbsorbValid<R>(c: Cache<R>, d: nat, k: nat, m: Meta)
    requires Valid(c) && d < |c.adj| && k < |c.adj| && (k == d + 1 || d == k + 1)
    requires c.meta[c.adj[k]].Pending() && c.meta[c.adj[d]].isFree && m.Pending()
    requires var lo := if d < k then d else k;
             var a, b := c.meta[c.adj[lo]], c.meta[c.adj[lo + 1]];
             a.chunk == b.chunk && CellOf(m) == Merge(CellOf(a), CellOf(b))
    ensures Valid(Absorb(c, d, c.adj[k], m))
  {
    hide Tiled, ListsFree, ListsLru, Sorted, States, Keyed;
    AbsorbTape(c, d, k, m);
    AbsorbIndexed(c, d, k, m);
    TiledMerge(c.chunks, TapeOf(c.adj, c.meta), if d < k then d else k);
  }

  lemma JoinedRegions<R>(c: Cache<R>, i: nat)
    requires Valid(c) && i + 1 < |c.adj|
    ensures Joined(c.chunks, CellOf(c.meta[c.adj[i]]), CellOf(c.meta[c.adj[i + 1]]))
  {
    assert JoinedAt(c.chunks, TapeOf(c.adj, c.meta), i);
  }

  /** The region swallows a free left neighbour of the same chunk, if it has one. */
  ghost function MergedLeft<R>(c: Cache<R>, r: R): (c': Cache<R>)
    requires ListsAll(c.adj, c.meta) && r in c.meta
  {
    var i := IndexOf(c.adj, r);
    if i > 0 && CanMerge(c.meta, r, c.adj[i - 1])
    then Absorb(c, i - 1, c.adj[i], GrownLeft(c.meta[r], c.meta[c.adj[i - 1]])) else c
  }

  ghost function MergedRight<R>(c: Cache<R>, r: R): (c': Cache<R>)
    requires ListsAll(c.adj, c.meta) && r in c.meta
  {
    var i := IndexOf(c.adj, r);
    if i + 1 < |c.adj| && CanMerge(c.meta, r, c.adj[i + 1])
    then Absorb(c, i + 1, c.adj[i], GrownRight(c.meta[r], c.meta[c.adj[i + 1]])) else c
  }

  ghost predicate ApartLeft<R>(c: Cache<R>, r: R)
    requires ListsAll(c.adj, c.meta) && r in c.meta
  {
    var i := IndexOf(c.adj, r);
    i > 0 ==> !CanMerge(c.meta, r, c.adj[i - 1])
  }

  ghost predicate ApartRight<R>(c: Cache<R>, r: R)
    requires ListsAll(c.adj, c.meta) && r in c.meta
  {
    var i := IndexOf(c.adj, r);
    i + 1 < |c.adj| ==> !CanMerge(c.meta, r, c.adj[i + 1])
  }

  /** Nothing but `r` and the free neighbours it swallows changes. */
  ghost predicate OnlyGrows<R>(meta: map<R, Meta>, meta': map<R, Meta>, r: R) {
    && r in meta && r in meta' && meta'[r].size >= meta[r].size
    && (forall x | x in meta && !meta[x].isFree :: x in meta')
    && (forall x | x in meta' && x != r :: x in meta && meta'[x] == meta[x])
  }

  lemma MergedLeftValid<R>(c: Cache<R>, r: R)
    requires Valid(c) && r in c.meta && c.meta[r].Pending()
    ensures Valid(MergedLeft(c, r)) && OnlyGrows(c.meta, MergedLeft(c, r).meta, r)
    ensures MergedLeft(c, r).meta[r].Pending()
  {
    hide Tiled, Mapped, ListsFree, ListsLru, Sorted, States, Keyed;
    var i := IndexOf(c.adj, r);
    if i > 0 && CanMerge(c.meta, r, c.adj[i - 1]) {
      JoinedRegions(c, i - 1);
      AbsorbValid(c, i - 1, i, GrownLeft(c.meta[r], c.meta[c.adj[i - 1]]));
    }
  }

  lemma MergedRightValid<R>(c: Cache<R>, r: R)
    requires Valid(c) && r in c.meta && c.meta[r].Pending()
    ensures Valid(MergedRight(c, r)) && OnlyGrows(c.meta, MergedRight(c, r).meta, r)
    ensures MergedRight(c, r).meta[r].Pending()
  {
    hide Tiled, Mapped, ListsFree, ListsLru, Sorted, States, Keyed;
    var i := IndexOf(c.adj, r);
    if i + 1 < |c.adj| && CanMerge(c.meta, r, c.adj[i + 1]) {
      JoinedRegions(c, i);
      AbsorbValid(c, i + 1, i, GrownRight(c.meta[r], c.meta[c.adj[i + 1]]));
    }
  }

  lemma MergedLeftApart<R>(c: Cache<R>, r: R)
    requires Valid(c) && r in c.meta && c.meta[r].Pending()
    ensures ListsAll(MergedLeft(c, r).adj, MergedLeft(c, r).meta) && ApartLeft(MergedLeft(c, r), r)
  {
    hide Tiled, Mapped, ListsFree, ListsLru, Sorted, States, Keyed;
    var i := IndexOf(c.adj, r);
    if i > 0 && CanMerge(c.meta, r, c.adj[i - 1]) {
      var m := GrownLeft(c.meta[r], c.meta[c.adj[i - 1]]);
      AbsorbLists(c, i - 1, i, m);
      assert MergedLeft(c, r).adj[i - 1] == r;
      if i > 1 {
        JoinedRegions(c, i - 2);
      }
    }
  }

  /** The right merge leaves the left side as it is. */
  lemma MergedRightLeft<R>(c: Cache<R>, r: R)
    requires Valid(c) && r in c.meta && c.meta[r].Pending() && ApartLeft(c, r)
    ensures ListsAll(MergedRight(c, r).adj, MergedRight(c, r).meta) && ApartLeft(MergedRight(c, r), r)
  {
    hide Tiled, Mapped, ListsFree, ListsLru, Sorted, States, Keyed, TapeOf;
    var i := IndexOf(c.adj, r);
    if i + 1 < |c.adj| && CanMerge(c.meta, r, c.adj[i + 1]) {
      AbsorbTape(c, i + 1, i, GrownRight(c.meta[r], c.meta[c.adj[i + 1]]));
    }
  }

  lemma MergedRightApart<R>(c: Cache<R>, r: R)
    requires Valid(c) && r in c.meta && c.meta[r].Pending() && ApartLeft(c, r)
    ensures var c' := MergedRight(c, r);
            ListsAll(c'.adj, c'.meta) && ApartLeft(c', r) && ApartRight(c', r)
  {
    hide Tiled, Mapped, ListsFree, ListsLru, Sorted, States, Keyed, ApartLeft, TapeOf;
    MergedRightLeft(c, r);
    var i := IndexOf(c.adj, r);
    if i + 1 < |c.adj| && CanMerge(c.meta, r, c.adj[i + 1]) {
      AbsorbTape(c, i + 1, i, GrownRight(c.meta[r], c.meta[c.adj[i + 1]]));
      if i + 2 < |c.adj| {
        JoinedRegions(c, i + 1);
      }
    }
  }

  ghost function Released<R>(c: Cache<R>, r: R): Cache<R>
    requires Indexed(c) && r in c.meta
  {
    var meta' := c.meta[r := c.meta[r].(isFree := true)];
    c.(sizes := Insert(c.sizes, meta', r), meta := meta')
  }

  lemma ReleasedTape<R>(c: Cache<R>, r: R)
    requires Indexed(c) && r in c.meta && c.meta[r].Pending()
    ensures Indexed(Released(c, r))
    ensures var i, t := IndexOf(c.adj, r), TapeOf(c.adj, c.meta);
            TapeOf(c.adj, Released(c, r).meta) == t[i := t[i].(free := true)]
  {
    hide Sorted;
    InsertListed(c.sizes, c.meta, r, c.meta[r].(isFree := true));
  }

  lemma ReleasedValid<R>(c: Cache<R>, r: R)
    requires Valid(c) && r in c.meta && c.meta[r].Pending() && ApartLeft(c, r) && ApartRight(c, r)
    ensures Valid(Released(c, r))
  {
    hide Tiled, ListsFree, ListsLru, Sorted, States, Keyed;
    ReleasedTape(c, r);
    TiledFree(c.chunks, TapeOf(c.adj, c.meta), IndexOf(c.adj, r));
  }

  ghost function FreeRegion<R>(c: Cache<R>, r: R): (c': Cache<R>)
    requires Valid(c) && r in c.meta && c.meta[r].Pending()
    ensures Valid(c') && OnlyGrows(c.meta, c'.meta, r) && c'.meta[r].isFree
    ensures c' == c.(adj := c'.adj, sizes := c'.sizes, meta := c'.meta)
  {
    var c1 := MergedLeft(c, r);
    MergedLeftValid(c, r);
    MergedLeftApart(c, r);
    var c2 := MergedRight(c1, r);
    MergedRightValid(c1, r);
    MergedRightApart(c1, r);
    ReleasedValid(c2, r);
    Released(c2, r)
  }
}
