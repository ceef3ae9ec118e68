/** The arena with free lists: released blocks are chained by size class and handed out again. */
module FreeLists {
  import opened Arith
  import opened Arenas

  const MAX_FIXED := 65536

  function FindFreeListIndex(size: nat): nat {
    if size <= 8 then 2 else Log2(size - 1)
  }

  function Capacity(idx: nat): nat { Pow2(idx + 1) }

  /** The size class holds the request, has a list of its own, and wastes less than half of a block. */
  lemma ClassFits(size: nat)
    requires size <= 65536
    ensures var idx := FindFreeListIndex(size);
            2 <= idx <= 15 && 8 <= Capacity(idx) && size <= Capacity(idx) && (size > 8 ==> Capacity(idx) < 2 * size)
  {
    MachineWidths();
    assert Pow2(3) == 8;
    if size > 8 {
      var idx := Log2(size - 1);
      Log2Means(size - 1);
      if idx < 2 { Pow2Monotone(idx + 1, 3); }
      if idx > 15 { Pow2Monotone(16, idx); }
      Pow2Monotone(3, idx + 1);
    }
  }

  lemma EightIs()
    ensures Pow2(3) == 8
  {
  }

  /** The capacity of the class is the least power of two that is at least 8 and at least the size. */
  lemma ClassLeast(size: nat, j: nat)
    requires size <= 65536
    ensures var c := Capacity(FindFreeListIndex(size));
            8 <= c && size <= c && (8 <= Pow2(j) && size <= Pow2(j) ==> c <= Pow2(j))
  {
    hide Pow2, Log2;
    ClassFits(size);
    EightIs();
    if size > 8 && size <= Pow2(j) {
      var idx := Log2(size - 1);
      Log2Means(size - 1);
      if j <= idx { Pow2Monotone(j, idx); }
      Pow2Monotone(idx + 1, if j <= idx then idx + 1 else j);
    }
  }

  /** The chain of blocks that starts at `head`; zero ends it. */
  ghost predicate Chain(head: nat, links: map<nat, nat>, list: seq<nat>)
    decreases |list|
  {
    if list == [] then head == 0
    else head == list[0] != 0 && head in links && Chain(links[head], links, list[1..])
  }

  ghost predicate Distinct(list: seq<nat>) {
    forall i, j | 0 <= i < j < |list| :: list[i] != list[j]
  }

  /** Writing a link into a block off the chain leaves the chain alone. */
  lemma {:induction false} ChainKept(head: nat, links: map<nat, nat>, list: seq<nat>, a: nat, v: nat)
    requires Chain(head, links, list) && a !in list
    ensures Chain(head, links[a := v], list)
    decreases |list|
  {
    if list != [] { ChainKept(links[head], links, list[1..], a, v); }
  }

  /** What the structure is: every pool block is in use or on the list of its class, and on it once. */
  datatype Pool = Pool(classOf: map<nat, nat>, used: set<nat>, lists: seq<seq<nat>>)

  ghost predicate Partition(p: Pool) {
    && |p.lists| == 16
    && p.used <= p.classOf.Keys
    && (forall i | 0 <= i < 16 :: Distinct(p.lists[i]))
    && (forall i, k | 0 <= i < 16 && 0 <= k < |p.lists[i]| ::
          p.lists[i][k] in p.classOf && p.classOf[p.lists[i][k]] == i && p.lists[i][k] !in p.used)
    && (forall a | a in p.classOf :: 2 <= p.classOf[a] <= 15 && (a in p.used || a in p.lists[p.classOf[a]]))
  }

  function Taken(p: Pool, idx: nat): Pool
    requires idx < |p.lists| && p.lists[idx] != []
  {
    p.(used := p.used + {p.lists[idx][0]}, lists := p.lists[idx := p.lists[idx][1..]])
  }

  function Given(p: Pool, idx: nat, a: nat): Pool
    requires idx < |p.lists|
  {
    p.(used := p.used - {a}, lists := p.lists[idx := [a] + p.lists[idx]])
  }

  function Grown(p: Pool, idx: nat, a: nat): Pool {
    p.(classOf := p.classOf[a := idx], used := p.used + {a})
  }

  lemma TakenKeeps(p: Pool, idx: nat)
    requires Partition(p) && idx < 16 && p.lists[idx] != []
    ensures Partition(Taken(p, idx))
  {
    var q, a := Taken(p, idx), p.lists[idx][0];
    forall i, k | 0 <= i < 16 && 0 <= k < |q.lists[i]|
      ensures q.lists[i][k] in q.classOf && q.classOf[q.lists[i][k]] == i && q.lists[i][k] !in q.used
    {
      var k' := if i == idx then k + 1 else k;
      assert q.lists[i][k] == p.lists[i][k'];
    }
    forall x | x in q.classOf ensures 2 <= q.classOf[x] <= 15 && (x in q.used || x in q.lists[q.classOf[x]]) {
      if x !in q.used && q.classOf[x] == idx {
        var k :| 0 <= k < |p.lists[idx]| && p.lists[idx][k] == x;
        assert q.lists[idx][k - 1] == x;
      }
    }
  }

  lemma GivenKeeps(p: Pool, idx: nat, a: nat)
    requires Partition(p) && a in p.used && p.classOf[a] == idx
    ensures idx < 16 && a !in p.lists[idx] && Partition(Given(p, idx, a))
  {
    var q := Given(p, idx, a);
    forall i, k | 0 <= i < 16 && 0 <= k < |q.lists[i]|
      ensures q.lists[i][k] in q.classOf && q.classOf[q.lists[i][k]] == i && q.lists[i][k] !in q.used
    {
      if i == idx && k > 0 { assert q.lists[i][k] == p.lists[i][k - 1]; }
    }
    forall x | x in q.classOf ensures 2 <= q.classOf[x] <= 15 && (x in q.used || x in q.lists[q.classOf[x]]) {
      assert x == a || x in p.used || x in p.lists[p.classOf[x]];
    }
  }

  lemma GrownKeeps(p: Pool, idx: nat, a: nat)
    requires Partition(p) && 2 <= idx <= 15 && a !in p.classOf
    ensures Partition(Grown(p, idx, a))
  {
  }

  /** Pool blocks are blocks of the arena, of the full size of their class. */
  ghost predicate InArena(p: Pool, live: set<Block>) {
    forall a | a in p.classOf :: a > 0 && Block(a, Capacity(p.classOf[a])) in live
  }

  ghost predicate Chained(heads: seq<nat>, links: map<nat, nat>, lists: seq<seq<nat>>) {
    |heads| == |lists| && forall i | 0 <= i < |heads| :: Chain(heads[i], links, lists[i])
  }

  /** Large blocks come from the system: apart from the chunks and from each other. No chunk is at null. */
  ghost predicate Outside(cs: seq<Chunk>, large: set<Block>) {
    && (forall i | 0 <= i < |cs| :: cs[i].begin > 0)
    && (forall b, i | b in large && 0 <= i < |cs| :: Separate(cs[i].begin, cs[i].end + PAD, b.addr, b.addr + b.size))
    && forall x, y | x in large && y in large && x != y :: Apart(x, y)
  }

  lemma OutsideMoved(cs: seq<Chunk>, large: set<Block>, pos: nat)
    requires |cs| > 0 && Outside(cs, large)
    ensures Outside(Moved(cs, pos), large)
  {
  }

  lemma OutsideAppended(cs: seq<Chunk>, large: set<Block>, c: Chunk)
    requires Outside(cs, large) && c.begin > 0
    requires forall b | b in large :: Separate(b.addr, b.addr + b.size, c.begin, c.end + PAD)
    ensures Outside(cs + [c], large)
  {
  }

  /** A new block is at an address of its own. */
  lemma NewInArena(p: Pool, live: set<Block>, idx: nat, a: nat)
    requires InArena(p, live) && a > 0 && forall b | b in live :: Apart(b, Block(a, Capacity(idx)))
    ensures a !in p.classOf && InArena(Grown(p, idx, a), live + {Block(a, Capacity(idx))})
  {
  }

  /** Two pool blocks at different addresses do not overlap, in use or not. */
  lemma PoolApart(p: Pool, cs: seq<Chunk>, live: set<Block>, a: nat, b: nat)
    requires InArena(p, live) && Live(cs, live) && a in p.classOf && b in p.classOf && a != b
    ensures Apart(Block(a, Capacity(p.classOf[a])), Block(b, Capacity(p.classOf[b])))
  {
  }

  /** Nor does a large block overlap a pool block. */
  lemma LargeApart(p: Pool, cs: seq<Chunk>, live: set<Block>, large: set<Block>, a: nat, b: Block)
    requires InArena(p, live) && Sound(cs) && Live(cs, live) && Outside(cs, large) && a in p.classOf && b in large
    ensures Apart(Block(a, Capacity(p.classOf[a])), b)
  {
    var x := Block(a, Capacity(p.classOf[a]));
    assert Inside(cs, x);
    var i :| 0 <= i < |cs| && Holds(cs[i], x);
  }

  lemma TakeLink(heads: seq<nat>, links: map<nat, nat>, lists: seq<seq<nat>>, idx: nat)
    requires Chained(heads, links, lists) && idx < |heads| && heads[idx] != 0
    ensures lists[idx] != [] && heads[idx] == lists[idx][0] && heads[idx] in links
    ensures Chained(heads[idx := links[heads[idx]]], links, lists[idx := lists[idx][1..]])
  {
    assert Chain(heads[idx], links, lists[idx]);
  }

  lemma GiveLink(heads: seq<nat>, links: map<nat, nat>, lists: seq<seq<nat>>, idx: nat, a: nat)
    requires Chained(heads, links, lists) && idx < |heads| && a > 0 && forall i | 0 <= i < |lists| :: a !in lists[i]
    ensures Chained(heads[idx := a], links[a := heads[idx]], lists[idx := [a] + lists[idx]])
  {
    var links' := links[a := heads[idx]];
    forall i | 0 <= i < |heads| ensures Chain(heads[i], links', lists[i]) {
      assert Chain(heads[i], links, lists[i]);
      ChainKept(heads[i], links, lists[i], a, heads[idx]);
    }
    assert ([a] + lists[idx])[1..] == lists[idx];
  }

  /** However the arena made room, the large blocks are still outside. */
  lemma StillOutside(cs': seq<Chunk>, large: set<Block>, cs: seq<Chunk>, at: nat, res: nat, n: nat, size: nat)
    requires |cs| > 0 && Outside(cs, large) && at > 0 && size >= PAD && |cs'| > 0 && Head(cs').begin <= res
    requires forall b | b in large :: Separate(b.addr, b.addr + b.size, at, at + size)
    requires cs' == Moved(cs, res + n) || cs' == cs + [Chunk(at, at + n, at + size - PAD)]
    ensures Outside(cs', large) && res > 0
  {
    if cs' == Moved(cs, res + n) {
      OutsideMoved(cs, large, res + n);
    } else {
      OutsideAppended(cs, large, Chunk(at, at + n, at + size - PAD));
    }
    assert cs'[|cs'| - 1].begin > 0;
  }

  lemma UsedKnown(p: Pool, a: nat)
    requires Partition(p) && a !in p.classOf
    ensures a !in p.used
  {
  }

  lemma Sixteen(p: Pool, heads: seq<nat>, links: map<nat, nat>)
    requires Partition(p) && Chained(heads, links, p.lists)
    ensures |p.lists| == |heads| == 16
  {
  }

  lemma FrontIsFree(p: Pool, idx: nat)
    requires Partition(p) && idx < 16 && p.lists[idx] != []
    ensures p.lists[idx][0] !in p.used && p.lists[idx][0] in p.classOf && p.classOf[p.lists[idx][0]] == idx
  {
  }

  lemma TakenInArena(p: Pool, live: set<Block>, idx: nat)
    requires InArena(p, live) && idx < |p.lists| && p.lists[idx] != []
    ensures InArena(Taken(p, idx), live)
  {
  }

  lemma LargeKeeps(cs: seq<Chunk>, large: set<Block>, b: Block)
    requires Outside(cs, large) && Unused(cs, b.addr, b.size) && forall x | x in large :: Apart(x, b)
    ensures Outside(cs, large + {b})
  {
  }

  class ArenaWithFreeLists {
    const pool: Arena
    var heads: seq<nat>
    var links: map<nat, nat>
    ghost var p: Pool
    ghost var large: set<Block>

    ghost predicate Valid()
      reads this, pool
    {
      && pool.Valid() && Partition(p) && InArena(p, pool.live) && Chained(heads, links, p.lists)
      && Outside(pool.chunks, large)
    }

    constructor (initialSize: nat, growthFactor: nat, linearGrowthThreshold: nat, pageSize: nat, at: nat, mem: nat -> int)
      requires initialSize >= PAD && linearGrowthThreshold > 0 && pageSize > 0 && at > 0
      ensures Valid() && fresh(pool) && p.used == {} && large == {}
    {
      pool := new Arena(initialSize, growthFactor, linearGrowthThreshold, pageSize, at, mem);
      heads := seq(16, i => 0);
      links := map[];
      p := Pool(map[], {}, seq(16, i => []));
      large := {};
    }

    /** A block of the class of `size` (or from the system, if large), apart from every block in use
        and every block on a free list. */
    method Alloc(size: nat, at: nat) returns (res: nat)
      requires Valid() && at > 0
      requires size > 65536 ==> Unused(pool.chunks, at, size) && forall b | b in large :: Apart(b, Block(at, size))
      requires size <= 65536 ==> var n := pool.ChunkFor(Capacity(FindFreeListIndex(size)));
               Unused(pool.chunks, at, n) && forall b | b in large :: Separate(b.addr, b.addr + b.size, at, at + n)
      modifies this, pool
      ensures Valid()
      ensures size > 65536 ==> res == at && large == old(large) + {Block(at, size)} && p == old(p)
      ensures size <= 65536 ==>
        var idx := FindFreeListIndex(size);
        && large == old(large) && res !in old(p.used) && p.used == old(p.used) + {res}
        && res in p.classOf && p.classOf[res] == idx && size <= Capacity(idx)
        && (if old(heads)[idx] != 0 then res == old(heads)[idx] && p == Taken(old(p), idx) else p == Grown(old(p), idx, res))
    {
      hide Partition, Chained, InArena, Outside, FindFreeListIndex, Capacity, Unused, Taken, Grown;
      if size > MAX_FIXED {
        LargeKeeps(pool.chunks, large, Block(at, size));
        large := large + {Block(at, size)};
        return at;
      }
      ClassFits(size);
      Sixteen(p, heads, links);
      var idx := FindFreeListIndex(size);
      if heads[idx] != 0 {
        res := TakeFree(idx);
      } else {
        res := NewBlock(idx, at);
      }
    }

    /** The block at the front of a list. */
    method TakeFree(idx: nat) returns (res: nat)
      requires Valid() && idx < |heads| == |p.lists| == 16 && heads[idx] != 0
      modifies `heads, `p
      ensures Valid() && res == old(heads)[idx] && old(p.lists[idx]) != [] && p == Taken(old(p), idx)
      ensures res !in old(p.used) && p.used == old(p.used) + {res} && res in p.classOf && p.classOf[res] == idx
    {
      hide Partition, Chained, InArena, Outside;
      TakeLink(heads, links, p.lists, idx);
      TakenKeeps(p, idx);
      FrontIsFree(p, idx);
      TakenInArena(p, pool.live, idx);
      res := heads[idx];
      heads := heads[idx := links[res]];
      p := Taken(p, idx);
    }

    /** A block of a class whose list is empty, new from the arena. */
    method NewBlock(idx: nat, at: nat) returns (res: nat)
      requires Valid() && at > 0 && 2 <= idx <= 15
      requires var n := pool.ChunkFor(Capacity(idx));
               Unused(pool.chunks, at, n) && forall b | b in large :: Separate(b.addr, b.addr + b.size, at, at + n)
      modifies this`p, pool
      ensures Valid() && res !in old(p.classOf) && p == Grown(old(p), idx, res)
      ensures res !in old(p.used) && p.used == old(p.used) + {res} && res in p.classOf && p.classOf[res] == idx
    {
      hide Partition, Chained, InArena, Outside, Capacity;
      ghost var cs, size := pool.chunks, pool.ChunkFor(Capacity(idx));
      res := pool.Alloc(Capacity(idx), at);
      StillOutside(pool.chunks, large, cs, at, res, Capacity(idx), size);
      NewInArena(p, old(pool.live), idx, res);
      GrownKeeps(p, idx, res);
      UsedKnown(p, res);
      p := Grown(p, idx, res);
    }

    /** The block goes to the front of the list of its class. */
    method Free(ptr: nat, size: nat)
      requires Valid()
      requires if size > 65536 then Block(ptr, size) in large
               else ptr in p.used && p.classOf[ptr] == FindFreeListIndex(size)
      modifies this
      ensures Valid()
      ensures size > 65536 ==> large == old(large) - {Block(ptr, size)} && p == old(p) && heads == old(heads)
      ensures size <= 65536 ==>
        var idx := FindFreeListIndex(size);
        large == old(large) && |heads| == 16 && p == Given(old(p), idx, ptr) && heads == old(heads)[idx := ptr]
    {
      if size > MAX_FIXED {
        large := large - {Block(ptr, size)};
        return;
      }
      var idx := FindFreeListIndex(size);
      GivenKeeps(p, idx, ptr);
      GiveLink(heads, links, p.lists, idx, ptr);
      hide Partition, Chain, FindFreeListIndex, Capacity;
      links := links[ptr := heads[idx]];
      heads := heads[idx := ptr];
      p := Given(p, idx, ptr);
    }
  }
}
