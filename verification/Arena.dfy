/** The arena: blocks bumped off the last of a chain of padded chunks. */
module Arenas {
  import opened Arith

  const PAD := 15

  /** `end` does not include the padding. */
  datatype Chunk = Chunk(begin: nat, pos: nat, end: nat) {
    function Size(): nat requires begin <= end { end + PAD - begin }
  }

  datatype Block = Block(addr: nat, size: nat)

  /** Half-open address ranges without a common address. */
  predicate Separate(a: nat, b: nat, c: nat, d: nat) {
    b <= c || d <= a
  }

  predicate Apart(x: Block, y: Block) {
    x.size == 0 || y.size == 0 || Separate(x.addr, x.addr + x.size, y.addr, y.addr + y.size)
  }

  ghost predicate Sound(cs: seq<Chunk>) {
    && |cs| > 0
    && (forall i | 0 <= i < |cs| :: cs[i].begin <= cs[i].pos <= cs[i].end)
    && forall i, j | 0 <= i < j < |cs| :: Separate(cs[i].begin, cs[i].end + PAD, cs[j].begin, cs[j].end + PAD)
  }

  ghost predicate Holds(c: Chunk, b: Block) {
    c.begin <= b.addr && b.addr + b.size <= c.pos
  }

  ghost predicate Inside(cs: seq<Chunk>, b: Block) {
    exists i | 0 <= i < |cs| :: Holds(cs[i], b)
  }

  /** Blocks handed out lie in the used parts of the chunks and do not overlap; empty ones are anywhere. */
  ghost predicate Live(cs: seq<Chunk>, live: set<Block>) {
    && (forall b | b in live && b.size > 0 :: Inside(cs, b))
    && forall x, y | x in live && y in live && x != y :: Apart(x, y)
  }

  ghost function Bytes(cs: seq<Chunk>): int
    requires forall i | 0 <= i < |cs| :: cs[i].begin <= cs[i].end
  {
    if cs == [] then 0 else Bytes(cs[..|cs| - 1]) + cs[|cs| - 1].Size()
  }

  function Head(cs: seq<Chunk>): Chunk
    requires |cs| > 0
  {
    cs[|cs| - 1]
  }

  function Moved(cs: seq<Chunk>, pos: nat): seq<Chunk>
    requires |cs| > 0
  {
    cs[|cs| - 1 := Head(cs).(pos := pos)]
  }

  lemma MovedHead(cs: seq<Chunk>, pos: nat)
    requires |cs| > 0
    ensures |Moved(cs, pos)| == |cs| && Head(Moved(cs, pos)) == Head(cs).(pos := pos)
  {
  }

  lemma MovedAppended(cs: seq<Chunk>, c: Chunk, pos: nat)
    ensures Moved(cs + [c], pos) == cs + [c.(pos := pos)]
  {
  }

  /** Free addresses for a new chunk. */
  ghost predicate Unused(cs: seq<Chunk>, at: nat, size: nat) {
    forall i | 0 <= i < |cs| :: Separate(cs[i].begin, cs[i].end + PAD, at, at + size)
  }

  lemma HeadFine(cs: seq<Chunk>)
    requires Sound(cs)
    ensures |cs| > 0 && Head(cs).begin <= Head(cs).pos <= Head(cs).end
  {
  }

  /** Handing out more of the head chunk moves nothing. */
  lemma MoveKeeps(cs: seq<Chunk>, pos: nat)
    requires Sound(cs) && Head(cs).pos <= pos <= Head(cs).end
    ensures Sound(Moved(cs, pos)) && Bytes(Moved(cs, pos)) == Bytes(cs)
    ensures forall b | Inside(cs, b) :: Inside(Moved(cs, pos), b)
  {
    var cs' := Moved(cs, pos);
    forall b | Inside(cs, b) ensures Inside(cs', b) {
      var i :| 0 <= i < |cs| && Holds(cs[i], b);
      assert Holds(cs'[i], b);
    }
    assert cs'[..|cs| - 1] == cs[..|cs| - 1];
  }

  /** The free space of the head chunk is free. */
  lemma FreeApart(cs: seq<Chunk>, b: Block, addr: nat, size: nat)
    requires Sound(cs) && (b.size > 0 ==> Inside(cs, b)) && Head(cs).pos <= addr && addr + size <= Head(cs).end
    ensures Apart(b, Block(addr, size))
  {
    if b.size > 0 { var i :| 0 <= i < |cs| && Holds(cs[i], b); }
  }

  lemma BumpKeeps(cs: seq<Chunk>, live: set<Block>, addr: nat, size: nat)
    requires Sound(cs) && Live(cs, live) && Head(cs).pos <= addr && addr + size <= Head(cs).end
    ensures var cs' := Moved(cs, addr + size);
            && Sound(cs') && Live(cs', live + {Block(addr, size)}) && Bytes(cs') == Bytes(cs)
            && forall b | b in live :: Apart(b, Block(addr, size))
  {
    hide Sound, Inside, Apart, Bytes;
    HeadFine(cs);
    var cs', b := Moved(cs, addr + size), Block(addr, size);
    MoveKeeps(cs, addr + size);
    BumpedInside(cs, addr, size);
    forall x | x in live ensures Apart(x, b) && Apart(b, x) {
      FreeApart(cs, x, addr, size);
      ApartBoth(x, b);
    }
  }

  lemma ApartBoth(x: Block, y: Block)
    ensures Apart(x, y) == Apart(y, x)
  {
  }

  lemma BumpedInside(cs: seq<Chunk>, addr: nat, size: nat)
    requires Sound(cs) && Head(cs).begin <= addr
    ensures Inside(Moved(cs, addr + size), Block(addr, size))
  {
    assert Holds(Moved(cs, addr + size)[|cs| - 1], Block(addr, size));
  }

  lemma AppendKeeps(cs: seq<Chunk>, live: set<Block>, c: Chunk)
    requires Sound(cs) && Live(cs, live) && c.begin <= c.pos <= c.end && Unused(cs, c.begin, c.Size())
    ensures Sound(cs + [c]) && Live(cs + [c], live) && Bytes(cs + [c]) == Bytes(cs) + c.Size()
  {
    forall x | x in live && x.size > 0 ensures Inside(cs + [c], x) {
      var i :| 0 <= i < |cs| && Holds(cs[i], x);
      assert Holds((cs + [c])[i], x);
    }
    assert (cs + [c])[..|cs|] == cs;
  }

  /** A block that ends where the free space starts is in the head chunk: the padding keeps the ends
      of all other chunks away from it. */
  lemma LastInHead(cs: seq<Chunk>, b: Block)
    requires Sound(cs) && (b.size > 0 ==> Inside(cs, b)) && b.addr + b.size == Head(cs).pos
    ensures Holds(Head(cs), b)
  {
    if b.size > 0 { var i :| 0 <= i < |cs| && Holds(cs[i], b); }
  }

  /** Without padding two chunks can touch, and the test is fooled. */
  lemma PaddingNeeded()
    ensures var b, c, d := Block(100, 28), Chunk(100, 128, 128), Chunk(128, 128, 192);
            && Holds(c, b) && Separate(c.begin, c.end, d.begin, d.end)
            && b.addr + b.size == d.pos && !Holds(d, b)
  {
  }

  lemma DropKeeps(cs: seq<Chunk>, live: set<Block>, gone: set<Block>)
    requires Live(cs, live)
    ensures Live(cs, live - gone)
  {
  }

  /** The last block can grow in place. */
  lemma GrowKeeps(cs: seq<Chunk>, live: set<Block>, b: Block, more: nat)
    requires Sound(cs) && Live(cs, live) && b in live && b.addr + b.size == Head(cs).pos
    requires Head(cs).pos + more <= Head(cs).end
    ensures var cs' := Moved(cs, Head(cs).pos + more);
            && Sound(cs') && Live(cs', live - {b} + {Block(b.addr, b.size + more)}) && Bytes(cs') == Bytes(cs)
  {
    hide Sound, Inside, Apart, Bytes;
    HeadFine(cs);
    var pos := Head(cs).pos;
    var b' := Block(b.addr, b.size + more);
    MoveKeeps(cs, pos + more);
    LastInHead(cs, b);
    BumpedInside(cs, b.addr, b.size + more);
    forall x | x in live && x != b ensures Apart(x, b') && Apart(b', x) {
      FreeApart(cs, x, pos, more);
      GrownApart(cs, x, b, more);
      ApartBoth(x, b');
    }
  }

  lemma GrownApart(cs: seq<Chunk>, x: Block, b: Block, more: nat)
    requires Sound(cs) && (x.size > 0 ==> Inside(cs, x)) && Apart(x, b) && Holds(Head(cs), b) && b.addr + b.size == Head(cs).pos
    requires Head(cs).pos + more <= Head(cs).end
    ensures Apart(x, Block(b.addr, b.size + more))
  {
    if x.size > 0 { var i :| 0 <= i < |cs| && Holds(cs[i], x); }
  }

  /** The last block can give back its end. */
  lemma ShrinkKeeps(cs: seq<Chunk>, live: set<Block>, b: Block, less: nat)
    requires Sound(cs) && Live(cs, live) && b in live && b.addr + b.size == Head(cs).pos && less <= b.size
    ensures var cs' := Moved(cs, Head(cs).pos - less);
            && Sound(cs') && Live(cs', live - {b} + {Block(b.addr, b.size - less)}) && Bytes(cs') == Bytes(cs)
  {
    hide Sound, Inside, Apart, Bytes;
    HeadFine(cs);
    LastInHead(cs, b);
    var b' := Block(b.addr, b.size - less);
    MoveBack(cs, b, less);
    BumpedInside(cs, b.addr, b.size - less);
    forall x | x in live && x != b ensures (x.size > 0 ==> Inside(Moved(cs, Head(cs).pos - less), x)) && Apart(x, b') && Apart(b', x) {
      ShrunkApart(cs, x, b, less);
      ApartBoth(x, b');
    }
  }

  lemma MoveBack(cs: seq<Chunk>, b: Block, less: nat)
    requires Sound(cs) && Holds(Head(cs), b) && b.addr + b.size == Head(cs).pos && less <= b.size
    ensures Sound(Moved(cs, Head(cs).pos - less)) && Bytes(Moved(cs, Head(cs).pos - less)) == Bytes(cs)
  {
    var cs' := Moved(cs, Head(cs).pos - less);
    assert cs'[..|cs| - 1] == cs[..|cs| - 1];
  }

  lemma ShrunkApart(cs: seq<Chunk>, x: Block, b: Block, less: nat)
    requires Sound(cs) && (x.size > 0 ==> Inside(cs, x)) && Apart(x, b) && b.addr + b.size == Head(cs).pos
    requires Holds(Head(cs), b) && less <= b.size
    ensures (x.size > 0 ==> Inside(Moved(cs, Head(cs).pos - less), x)) && Apart(x, Block(b.addr, b.size - less))
  {
    if x.size > 0 {
      var i :| 0 <= i < |cs| && Holds(cs[i], x);
      assert Holds(Moved(cs, Head(cs).pos - less)[i], x);
    }
  }

  /** `n` bytes from `to` on are those that were at `from`. */
  ghost predicate Same(before: nat -> int, after: nat -> int, from: nat, to: nat, n: nat) {
    forall a: nat | to <= a < to + n :: after(a) == before(a - to + from)
  }

  /** The byte at `a` after `n` bytes were copied. */
  function ByteAfter(before: nat -> int, to: nat, from: nat, n: nat, a: nat): int {
    if to <= a < to + n then before(a - to + from) else before(a)
  }

  /** All of memory. */
  ghost predicate Copied(before: nat -> int, after: nat -> int, to: nat, from: nat, n: nat) {
    forall a: nat {:trigger after(a)} :: after(a) == ByteAfter(before, to, from, n, a)
  }

  function Overlaid(before: nat -> int, to: nat, from: nat, n: nat): (after: nat -> int) {
    (a: nat) => ByteAfter(before, to, from, n, a)
  }

  lemma OverlaidCopies(before: nat -> int, to: nat, from: nat, n: nat)
    ensures Copied(before, Overlaid(before, to, from, n), to, from, n)
  {
    hide ByteAfter;
  }

  /** The moved block carries its bytes; no other block changes. */
  ghost predicate Carried(before: nat -> int, after: nat -> int, others: set<Block>, from: Block, to: nat) {
    && Same(before, after, from.addr, to, from.size)
    && forall b | b in others :: Same(before, after, b.addr, b.addr, b.size)
  }

  lemma CopyCarries(before: nat -> int, after: nat -> int, others: set<Block>, from: Block, to: nat, size: nat)
    requires Copied(before, after, to, from.addr, from.size)
    requires from.size <= size && forall b | b in others :: Apart(b, Block(to, size))
    ensures Carried(before, after, others, from, to)
  {
    assert Same(before, after, from.addr, to, from.size);
    forall b | b in others ensures Same(before, after, b.addr, b.addr, b.size) {
      assert Apart(b, Block(to, size));
      forall a: nat | b.addr <= a < b.addr + b.size ensures after(a) == before(a) {
      }
    }
  }

  lemma NothingMoved(mem: nat -> int, others: set<Block>, b: Block)
    ensures Carried(mem, mem, others, b, b.addr)
  {
  }

  // ---------- Sizes of new chunks ----------

  function RoundUp(x: nat, unit: nat): (r: nat)
    requires unit > 0
    ensures x <= r < x + unit && r % unit == 0
  {
    RoundUpMeans(x, unit);
    (x + unit - 1) / unit * unit
  }

  lemma RoundUpLeast(x: nat, unit: nat)
    requires unit > 0
    ensures LeastMultiple(RoundUp(x, unit), x, unit) && x <= RoundUp(x, unit) < x + unit && RoundUp(x, unit) % unit == 0
  {
  }

  lemma RoundUpMeans(x: nat, unit: nat)
    requires unit > 0
    ensures var r := (x + unit - 1) / unit * unit; x <= r < x + unit && r % unit == 0
  {
    var y := x + unit - 1;
    assert y == y / unit * unit + y % unit;
    MultipleMod(y / unit, unit);
  }

  /** Exponential growth below the threshold, multiples of the threshold above; always whole pages. */
  function NextSize(headSize: nat, growth: nat, threshold: nat, page: nat, min: nat): (r: nat)
    requires threshold > 0 && page > 0
    ensures r >= min && r % page == 0
    ensures headSize < threshold ==> r >= headSize * growth
    ensures r < (if headSize >= threshold then min + threshold else if min > headSize * growth then min else headSize * growth) + page
  {
    var grown := if headSize < threshold then (if min > headSize * growth then min else headSize * growth)
                 else RoundUp(min, threshold);
    RoundUp(grown, page)
  }

  /** What that is: the sizes are rounded up to the least multiple, first of the threshold, then of the page. */
  lemma NextSizeIs(headSize: nat, growth: nat, threshold: nat, page: nat, min: nat, grown: nat, size: nat)
    requires threshold > 0 && page > 0 && LeastMultiple(size, grown, page)
    requires if headSize < threshold then grown == (if min > headSize * growth then min else headSize * growth)
             else LeastMultiple(grown, min, threshold)
    ensures NextSize(headSize, growth, threshold, page, min) == size
  {
    hide RoundUp;
    if headSize >= threshold { LeastUnique(grown, RoundUp(min, threshold), min, threshold); }
    LeastUnique(size, RoundUp(grown, page), grown, page);
  }

  /** `res` is the first address from `at` on that is aligned, if alignment is asked for. */
  ghost predicate FirstAt(res: nat, at: nat, alignment: nat) {
    if alignment > 0 then LeastMultiple(res, at, alignment) else res == at
  }

  class Arena {
    const growthFactor: nat
    const linearGrowthThreshold: nat
    const pageSize: nat
    var chunks: seq<Chunk>
    var sizeInBytes: nat
    var mem: nat -> int
    ghost var live: set<Block>

    ghost predicate Valid()
      reads this
    {
      && pageSize > 0 && linearGrowthThreshold > 0
      && Sound(chunks) && Live(chunks, live) && sizeInBytes == Bytes(chunks)
    }

    function ChunkFor(size: nat): (r: nat)
      requires |chunks| > 0 && Head(chunks).begin <= Head(chunks).end && pageSize > 0 && linearGrowthThreshold > 0
      reads this
      ensures r >= size + PAD
    {
      NextSize(Head(chunks).Size(), growthFactor, linearGrowthThreshold, pageSize, size + PAD)
    }

    /** The size of a new chunk, by the size of the head chunk and the 15 bytes of padding. */
    lemma ChunkForIs(size: nat, grown: nat, r: nat)
      requires |chunks| > 0 && Head(chunks).begin <= Head(chunks).end && pageSize > 0 && linearGrowthThreshold > 0
      requires var headSize := Head(chunks).end + 15 - Head(chunks).begin;
               if headSize < linearGrowthThreshold
               then grown == (if size + 15 > headSize * growthFactor then size + 15 else headSize * growthFactor)
               else LeastMultiple(grown, size + 15, linearGrowthThreshold)
      requires LeastMultiple(r, grown, pageSize)
      ensures ChunkFor(size) == r
    {
      hide NextSize, LeastMultiple;
      NextSizeIs(Head(chunks).Size(), growthFactor, linearGrowthThreshold, pageSize, size + PAD, grown, r);
    }

    constructor (initialSize: nat, growthFactor: nat, linearGrowthThreshold: nat, pageSize: nat, at: nat, mem: nat -> int)
      requires initialSize >= 15 && linearGrowthThreshold > 0 && pageSize > 0
      ensures Valid() && live == {} && chunks == [Chunk(at, at, at + initialSize - 15)]
      ensures this.growthFactor == growthFactor && this.linearGrowthThreshold == linearGrowthThreshold && this.pageSize == pageSize
    {
      this.growthFactor, this.linearGrowthThreshold, this.pageSize := growthFactor, linearGrowthThreshold, pageSize;
      this.mem := mem;
      chunks := [Chunk(at, at, at + initialSize - PAD)];
      sizeInBytes := initialSize;
      live := {};
      assert [Chunk(at, at, at + initialSize - PAD)][..0] == [];
    }

    /** A new head chunk, at the addresses the system hands out. */
    method AddMemoryChunk(minSize: nat, at: nat)
      requires Valid() && Unused(chunks, at, ChunkFor(minSize))
      modifies `chunks, `sizeInBytes
      ensures Valid() && chunks == old(chunks) + [Chunk(at, at, at + old(ChunkFor(minSize)) - 15)]
      ensures sizeInBytes == old(sizeInBytes) + old(ChunkFor(minSize))
    {
      var size := ChunkFor(minSize);
      var c := Chunk(at, at, at + size - PAD);
      AppendKeeps(chunks, live, c);
      chunks := chunks + [c];
      sizeInBytes := sizeInBytes + c.Size();
    }

    /** The head chunk hands out `size` bytes from `addr` on. */
    method Bump(addr: nat, size: nat)
      requires Valid() && Head(chunks).pos <= addr && addr + size <= Head(chunks).end
      modifies `chunks, `live
      ensures Valid() && chunks == Moved(old(chunks), addr + size) && live == old(live) + {Block(addr, size)}
      ensures forall b | b in old(live) :: Apart(b, Block(addr, size))
    {
      BumpKeeps(chunks, live, addr, size);
      chunks := Moved(chunks, addr + size);
      live := live + {Block(addr, size)};
    }

    /** A block apart from all others, with its padding in the same chunk. */
    method Alloc(size: nat, at: nat) returns (res: nat)
      requires Valid()
      requires Head(chunks).pos + size > Head(chunks).end ==> Unused(chunks, at, ChunkFor(size))
      modifies `chunks, `sizeInBytes, `live
      ensures Valid() && live == old(live) + {Block(res, size)} && forall b | b in old(live) :: Apart(b, Block(res, size))
      ensures if old(Head(chunks).pos + size <= Head(chunks).end)
              then chunks == Moved(old(chunks), res + size) && res == old(Head(chunks).pos) && sizeInBytes == old(sizeInBytes)
              else res == at && chunks == old(chunks) + [Chunk(at, at + size, at + old(ChunkFor(size)) - 15)]
      ensures Head(chunks).begin <= res && res + size == Head(chunks).pos <= Head(chunks).end
    {
      if Head(chunks).pos + size > Head(chunks).end {
        AddMemoryChunk(size, at);
      }
      res := Head(chunks).pos;
      Bump(res, size);
    }

    /** Whether `std::align` finds room in the head chunk. */
    predicate AlignFits(size: nat, alignment: nat)
      requires alignment > 0 && |chunks| > 0
      reads `chunks
    {
      RoundUp(Head(chunks).pos, alignment) + size <= Head(chunks).end
    }

    /** It does if any aligned address leaves room. */
    lemma AlignRoom(size: nat, alignment: nat, a: nat)
      requires alignment > 0 && |chunks| > 0 && Head(chunks).pos <= a && a + size <= Head(chunks).end && a % alignment == 0
      ensures AlignFits(size, alignment)
    {
      hide RoundUp;
      RoundUpLeast(Head(chunks).pos, alignment);
      LeastBelow(RoundUp(Head(chunks).pos, alignment), Head(chunks).pos, alignment, a);
    }

    /** The first aligned address of the free space, if there is room. */
    method TakeAligned(size: nat, alignment: nat) returns (res: nat)
      requires Valid() && alignment > 0 && AlignFits(size, alignment)
      modifies `chunks, `live
      ensures Valid() && chunks == Moved(old(chunks), res + size) && LeastMultiple(res, old(Head(chunks).pos), alignment)
      ensures live == old(live) + {Block(res, size)} && forall b | b in old(live) :: Apart(b, Block(res, size))
      ensures res % alignment == 0 && res >= old(Head(chunks).pos)
    {
      hide Sound, Live, Bytes, RoundUp, LeastMultiple;
      HeadFine(chunks);
      res := RoundUp(Head(chunks).pos, alignment);
      RoundUpLeast(Head(chunks).pos, alignment);
      Bump(res, size);
    }

    /** An aligned block; the loop adds at most one chunk. */
    method AlignedAlloc(size: nat, alignment: nat, at: nat) returns (res: nat)
      requires Valid() && alignment > 0
      requires !AlignFits(size, alignment) ==> Unused(chunks, at, ChunkFor(size + alignment))
      modifies `chunks, `sizeInBytes, `live
      ensures Valid() && live == old(live) + {Block(res, size)} && forall b | b in old(live) :: Apart(b, Block(res, size))
      ensures res % alignment == 0 && res + size == Head(chunks).pos && Head(chunks).begin <= res
      ensures if old(AlignFits(size, alignment))
              then chunks == Moved(old(chunks), res + size) && LeastMultiple(res, old(Head(chunks).pos), alignment)
              else
                && LeastMultiple(res, at, alignment)
                && chunks == old(chunks) + [Chunk(at, res + size, at + old(ChunkFor(size + alignment)) - 15)]
    {
      hide Sound, Live, Bytes, NextSize, RoundUp, LeastMultiple, Unused, Moved;
      HeadFine(chunks);
      RoundUpLeast(at, alignment);
      ghost var c := Chunk(at, at, at + ChunkFor(size + alignment) - 15);
      while true
        invariant |chunks| > 0 && Valid() && live == old(live)
        invariant chunks == old(chunks) || (!old(AlignFits(size, alignment)) && AlignFits(size, alignment))
        invariant AlignFits(size, alignment) && !old(AlignFits(size, alignment)) ==> chunks == old(chunks) + [c]
        decreases if AlignFits(size, alignment) then 0 else 1
      {
        if AlignFits(size, alignment) {
          HeadFine(chunks);
          ghost var before := chunks;
          res := TakeAligned(size, alignment);
          MovedHead(before, res + size);
          MovedAppended(old(chunks), c, res + size);
          return;
        }
        AddMemoryChunk(size + alignment, at);
      }
    }

    /** `memcpy` */
    method Copy(dst: nat, src: nat, n: nat)
      requires Separate(dst, dst + n, src, src + n) || n == 0
      modifies `mem
      ensures Copied(old(mem), mem, dst, src, n)
    {
      hide Copied, Overlaid;
      OverlaidCopies(mem, dst, src, n);
      mem := Overlaid(mem, dst, src, n);
    }

    /** Gives back the end of the last block. */
    method Rollback(b: Block, size: nat) returns (pos: nat)
      requires Valid() && b in live && b.addr + b.size == Head(chunks).pos && size <= b.size
      modifies `chunks, `live
      ensures Valid() && pos == b.addr + b.size - size && live == old(live) - {b} + {Block(b.addr, b.size - size)}
    {
      hide Sound, Live, Bytes;
      HeadFine(chunks);
      ShrinkKeeps(chunks, live, b, size);
      chunks := Moved(chunks, Head(chunks).pos - size);
      live := live - {b} + {Block(b.addr, b.size - size)};
      return Head(chunks).pos;
    }


    /** Extends the last range by `more` bytes: in place if they fit, otherwise by moving it. */
    method AllocContinue(more: nat, start: nat, alignment: nat, at: nat) returns (piece: nat, newStart: nat)
      requires Valid() && more > 0 && start <= Head(chunks).pos && Block(start, Head(chunks).pos - start) in live
      requires Head(chunks).pos + more > Head(chunks).end ==>
        Unused(chunks, at, ChunkFor(Head(chunks).pos - start + more + alignment))
      modifies `chunks, `sizeInBytes, `live, `mem
      ensures Valid() && piece == newStart + old(Head(chunks).pos) - start
      ensures var b := Block(start, old(Head(chunks).pos) - start);
              && live == old(live) - {b} + {Block(newStart, b.size + more)}
              && Carried(old(mem), mem, old(live) - {b}, b, newStart)
      ensures if old(Head(chunks).pos + more <= Head(chunks).end) then newStart == start && sizeInBytes == old(sizeInBytes)
              else (alignment > 0 ==> newStart % alignment == 0) && |chunks| == |old(chunks)| + 1 && FirstAt(newStart, at, alignment)
    {
      if Head(chunks).pos + more <= Head(chunks).end {
        piece, newStart := GrowInPlace(more, start);
      } else {
        piece, newStart := MoveRange(more, start, alignment, at);
      }
    }

    /** The last range grows over free space. */
    method GrowInPlace(more: nat, start: nat) returns (piece: nat, newStart: nat)
      requires Valid() && start <= Head(chunks).pos && Block(start, Head(chunks).pos - start) in live
      requires Head(chunks).pos + more <= Head(chunks).end
      modifies `chunks, `live
      ensures Valid() && newStart == start && piece == old(Head(chunks).pos)
      ensures var b := Block(start, old(Head(chunks).pos) - start);
              live == old(live) - {b} + {Block(newStart, b.size + more)} && Carried(mem, mem, old(live) - {b}, b, newStart)
    {
      hide Sound, Live, Bytes, Carried;
      HeadFine(chunks);
      ghost var b := Block(start, Head(chunks).pos - start);
      GrowKeeps(chunks, live, b, more);
      NothingMoved(mem, live - {b}, b);
      piece, newStart := Head(chunks).pos, start;
      chunks := Moved(chunks, piece + more);
      live := live - {b} + {Block(start, b.size + more)};
    }

    /** The last range is copied to a chunk that can hold it. */
    method MoveRange(more: nat, start: nat, alignment: nat, at: nat) returns (piece: nat, newStart: nat)
      requires Valid() && more > 0 && start <= Head(chunks).pos && Block(start, Head(chunks).pos - start) in live
      requires Head(chunks).pos + more > Head(chunks).end
      requires Unused(chunks, at, ChunkFor(Head(chunks).pos - start + more + alignment))
      modifies `chunks, `sizeInBytes, `live, `mem
      ensures Valid() && piece == newStart + old(Head(chunks).pos) - start
      ensures var b := Block(start, old(Head(chunks).pos) - start);
              && live == old(live) - {b} + {Block(newStart, b.size + more)}
              && Carried(old(mem), mem, old(live) - {b}, b, newStart)
      ensures (alignment > 0 ==> newStart % alignment == 0) && |chunks| == |old(chunks)| + 1 && FirstAt(newStart, at, alignment)
    {
      hide Sound, Live, Bytes, Carried, Unused, NextSize;
      HeadFine(chunks);
      var existing := Head(chunks).pos - start;
      var b := Block(start, existing);
      if alignment > 0 {
        newStart := AlignedAlloc(existing + more, alignment, at);
      } else {
        newStart := Alloc(existing + more, at);
      }
      ghost var novel := Block(newStart, existing + more);
      assert novel !in old(live) && live - {b, novel} == old(live) - {b};
      Relocate(b, newStart, existing + more);
      piece := newStart + existing;
    }

    /** Copies a block to a new one and gives up the old. */
    method Relocate(b: Block, to: nat, size: nat)
      requires Valid() && b in live && Block(to, size) in live && Block(to, size) != b && b.size <= size
      requires forall x | x in live && x != Block(to, size) :: Apart(x, Block(to, size))
      modifies `live, `mem
      ensures Valid() && live == old(live) - {b} && Carried(old(mem), mem, old(live) - {b, Block(to, size)}, b, to)
    {
      hide Sound, Live, Carried;
      Copy(to, b.addr, b.size);
      CopyCarries(old(mem), mem, live - {b, Block(to, size)}, b, to, size);
      DropKeeps(chunks, live, {b});
      live := live - {b};
    }

    /** `realloc` and `alignedRealloc`: always a new block. */
    method Realloc(b: Block, newSize: nat, alignment: nat, at: nat) returns (res: nat)
      requires Valid() && b in live && newSize > b.size && Unused(chunks, at, ChunkFor(newSize + alignment))
      modifies `chunks, `sizeInBytes, `live, `mem
      ensures Valid() && live == old(live) - {b} + {Block(res, newSize)} && (alignment > 0 ==> res % alignment == 0)
      ensures Carried(old(mem), mem, old(live) - {b}, b, res)
      ensures if old(if alignment > 0 then AlignFits(newSize, alignment) else Head(chunks).pos + newSize <= Head(chunks).end)
              then FirstAt(res, old(Head(chunks).pos), alignment) && |chunks| == |old(chunks)|
              else FirstAt(res, at, alignment) && |chunks| == |old(chunks)| + 1
    {
      hide Sound, Live, Bytes, Carried, Unused, NextSize, LeastMultiple;
      HeadFine(chunks);
      if alignment > 0 {
        res := AlignedAlloc(newSize, alignment, at);
      } else {
        res := Alloc(newSize, at);
      }
      ghost var novel := Block(res, newSize);
      assert novel !in old(live) && live - {b, novel} == old(live) - {b};
      Relocate(b, res, newSize);
    }
  }

  /** `realloc` of the arena allocators: the last block of the head chunk is extended, any other
      one is copied. Either way the bytes survive and no other block is touched. */
  method AllocatorRealloc(arena: Arena, buf: nat, oldSize: nat, newSize: nat, alignment: nat, at: nat) returns (res: nat)
    requires arena.Valid() && Block(buf, oldSize) in arena.live && newSize > oldSize
    requires Unused(arena.chunks, at, arena.ChunkFor(newSize + alignment))
    modifies arena
    ensures arena.Valid()
    ensures var b := Block(buf, oldSize);
            && arena.live == old(arena.live) - {b} + {Block(res, newSize)}
            && Carried(old(arena.mem), arena.mem, old(arena.live) - {b}, b, res)
    ensures alignment > 0 && buf % alignment == 0 ==> res % alignment == 0
    ensures old(buf + oldSize == Head(arena.chunks).pos && buf + newSize <= Head(arena.chunks).end) ==> res == buf
  {
    hide Sound, Live, Bytes, Carried, Unused, NextSize;
    HeadFine(arena.chunks);
    if buf + oldSize == Head(arena.chunks).pos {
      var piece;
      piece, res := arena.AllocContinue(newSize - oldSize, buf, alignment, at);
    } else {
      res := arena.Realloc(Block(buf, oldSize), newSize, alignment, at);
    }
  }
}
