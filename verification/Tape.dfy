/** The memory of the cache read from left to right: regions as bare cells, without identity.
    The structural facts about tiling and coalescing are proved here, on sequences of cells. */
module Tape {
  import opened Lists

  const ALIGNMENT: nat := 16

  datatype Chunk = Chunk(ptr: int, size: nat)

  datatype Cell = Cell(ptr: int, size: nat, chunk: nat, free: bool)

  ghost function End(a: Cell): int { a.ptr + a.size }

  ghost predicate InChunk(chunks: seq<Chunk>, a: Cell) {
    && a.chunk < |chunks|
    && chunks[a.chunk].ptr <= a.ptr && End(a) <= chunks[a.chunk].ptr + chunks[a.chunk].size
    && a.ptr % ALIGNMENT == 0 && a.size % ALIGNMENT == 0
  }

  ghost predicate StartsChunk(chunks: seq<Chunk>, a: Cell) {
    a.chunk < |chunks| && a.ptr == chunks[a.chunk].ptr
  }

  ghost predicate EndsChunk(chunks: seq<Chunk>, a: Cell) {
    a.chunk < |chunks| && End(a) == chunks[a.chunk].ptr + chunks[a.chunk].size
  }

  /** `b` may directly follow `a`: it continues the chunk of `a` and not both are free, or it
      opens the next chunk after `a` closed its own. */
  ghost predicate Joined(chunks: seq<Chunk>, a: Cell, b: Cell) {
    if a.chunk == b.chunk then b.ptr == End(a) && !(a.free && b.free)
    else b.chunk == a.chunk + 1 && EndsChunk(chunks, a) && StartsChunk(chunks, b)
  }

  ghost predicate JoinedAt(chunks: seq<Chunk>, t: seq<Cell>, i: nat) {
    i + 1 < |t| ==> Joined(chunks, t[i], t[i + 1])
  }

  /** The cells walk through the chunks in order and cover each without gap or overlap;
      free neighbours within a chunk are coalesced. */
  ghost predicate Tiled(chunks: seq<Chunk>, t: seq<Cell>) {
    && (forall i | 0 <= i < |t| :: InChunk(chunks, t[i]))
    && (t == [] <==> chunks == [])
    && (t != [] ==> t[0].chunk == 0 && StartsChunk(chunks, t[0]))
    && (t != [] ==> t[|t| - 1].chunk == |chunks| - 1 && EndsChunk(chunks, t[|t| - 1]))
    && (forall i: nat :: JoinedAt(chunks, t, i))
  }

  // ---------- Steps on the tape ----------

  ghost function Merge(a: Cell, b: Cell): Cell {
    Cell(a.ptr, a.size + b.size, a.chunk, false)
  }

  lemma TiledMerge(chunks: seq<Chunk>, t: seq<Cell>, i: nat)
    requires Tiled(chunks, t) && i + 1 < |t| && t[i].chunk == t[i + 1].chunk
    ensures Tiled(chunks, RemoveAt(t, i)[i := Merge(t[i], t[i + 1])])
    ensures RemoveAt(t, i)[i := Merge(t[i], t[i + 1])] == RemoveAt(t, i + 1)[i := Merge(t[i], t[i + 1])]
  {
    var t' := RemoveAt(t, i)[i := Merge(t[i], t[i + 1])];
    assert JoinedAt(chunks, t, i);
    forall j: nat ensures JoinedAt(chunks, t', j) {
      assert JoinedAt(chunks, t, if j < i then j else j + 1);
      MergedJoin(chunks, t, i, j);
    }
    hide Joined, JoinedAt;
  }

  lemma MergedJoin(chunks: seq<Chunk>, t: seq<Cell>, i: nat, j: nat)
    requires i + 1 < |t| && t[i].chunk == t[i + 1].chunk && JoinedAt(chunks, t, i)
    requires JoinedAt(chunks, t, if j < i then j else j + 1)
    ensures JoinedAt(chunks, RemoveAt(t, i)[i := Merge(t[i], t[i + 1])], j)
  {
  }

  /** Freeing the cell at `i` when no neighbour in its chunk is free. */
  lemma TiledFree(chunks: seq<Chunk>, t: seq<Cell>, i: nat)
    requires Tiled(chunks, t) && i < |t|
    requires i > 0 && t[i - 1].chunk == t[i].chunk ==> !t[i - 1].free
    requires i + 1 < |t| && t[i + 1].chunk == t[i].chunk ==> !t[i + 1].free
    ensures Tiled(chunks, t[i := t[i].(free := true)])
  {
    var t' := t[i := t[i].(free := true)];
    forall j: nat ensures JoinedAt(chunks, t', j) {
      assert JoinedAt(chunks, t, j);
    }
  }

  lemma TiledTake(chunks: seq<Chunk>, t: seq<Cell>, i: nat)
    requires Tiled(chunks, t) && i < |t|
    ensures Tiled(chunks, t[i := t[i].(free := false)])
  {
    var t' := t[i := t[i].(free := false)];
    forall j: nat ensures JoinedAt(chunks, t', j) {
      assert JoinedAt(chunks, t, j);
    }
  }

  ghost function Front(a: Cell, size: nat): Cell { Cell(a.ptr, size, a.chunk, false) }

  ghost function Back(a: Cell, size: nat): Cell
    requires size <= a.size
  {
    Cell(a.ptr + size, a.size - size, a.chunk, a.free)
  }

  lemma CutInChunk(chunks: seq<Chunk>, a: Cell, size: nat)
    requires InChunk(chunks, a) && size <= a.size && size % ALIGNMENT == 0
    ensures InChunk(chunks, Front(a, size)) && InChunk(chunks, Back(a, size))
  {
  }

  /** Cutting an allocated cell of `size` bytes off the front of the cell at `i`. */
  lemma TiledSplit(chunks: seq<Chunk>, t: seq<Cell>, i: nat, size: nat)
    requires Tiled(chunks, t) && i < |t| && size <= t[i].size && size % ALIGNMENT == 0
    ensures Tiled(chunks, InsertAt(t[i := Back(t[i], size)], i, Front(t[i], size)))
  {
    var t' := InsertAt(t[i := Back(t[i], size)], i, Front(t[i], size));
    CutInChunk(chunks, t[i], size);
    assert t'[i] == Front(t[i], size) && t'[i + 1] == Back(t[i], size);
    forall j: nat ensures JoinedAt(chunks, t', j) {
      if j < i {
        assert JoinedAt(chunks, t, j);
      } else if j > i {
        assert JoinedAt(chunks, t, j - 1);
      }
    }
  }

  lemma TiledAppend(chunks: seq<Chunk>, t: seq<Cell>, k: Chunk)
    requires Tiled(chunks, t) && k.ptr % ALIGNMENT == 0 && k.size % ALIGNMENT == 0
    ensures Tiled(chunks + [k], t + [Cell(k.ptr, k.size, |chunks|, true)])
  {
    var t' := t + [Cell(k.ptr, k.size, |chunks|, true)];
    var chunks' := chunks + [k];
    forall i | 0 <= i < |t'| ensures InChunk(chunks', t'[i]) {
    }
    forall j: nat ensures JoinedAt(chunks', t', j) {
      assert JoinedAt(chunks, t, j);
    }
  }

  // ---------- What tiling means for addresses ----------

  /** Address `x` lies in chunk `k`. */
  ghost predicate ChunkHas(chunks: seq<Chunk>, k: nat, x: int) {
    k < |chunks| && chunks[k].ptr <= x < chunks[k].ptr + chunks[k].size
  }

  ghost predicate Has(a: Cell, x: int) { a.ptr <= x < End(a) }

  /** Later cells of the same chunk lie at or behind the end of earlier ones, and chunk numbers
      never decrease. */
  lemma InOrder(chunks: seq<Chunk>, t: seq<Cell>, i: nat, j: nat)
    requires Tiled(chunks, t) && i < j < |t|
    ensures t[i].chunk <= t[j].chunk
    ensures t[i].chunk == t[j].chunk ==> End(t[i]) <= t[j].ptr
    decreases j - i
  {
    assert JoinedAt(chunks, t, i);
    if i + 1 < j {
      InOrder(chunks, t, i + 1, j);
    }
  }

  /** Every byte of every chunk lies in some cell of that chunk. */
  lemma {:induction false} Covered(chunks: seq<Chunk>, t: seq<Cell>, k: nat, x: int, from: nat) returns (i: nat)
    requires Tiled(chunks, t) && ChunkHas(chunks, k, x) && from < |t|
    requires t[from].chunk < k || (t[from].chunk == k && t[from].ptr <= x)
    ensures from <= i < |t| && t[i].chunk == k && Has(t[i], x)
    decreases |t| - from
  {
    if t[from].chunk == k && x < End(t[from]) {
      i := from;
    } else {
      assert JoinedAt(chunks, t, from);
      assert from + 1 < |t|;
      i := Covered(chunks, t, k, x, from + 1);
    }
  }
}
