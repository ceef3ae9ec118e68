/** Holders pin regions; published regions are found by key. */
module CacheHolders {
  import opened Lists
  import opened Tape
  import opened CacheRegions
  import opened CacheAllocate
  import opened CacheAccounting

  /** Constructor of a holder: the region leaves the LRU list when it becomes used. */
  ghost function Hold<R>(c: Cache<R>, r: R): Cache<R>
    requires r in c.meta
  {
    var m := c.meta[r];
    var unlink := m.refcount == 0 && m.inLru;
    c.(lru := if unlink then Without(c.lru, r) else c.lru,
       meta := c.meta[r := m.(refcount := m.refcount + 1, inLru := if unlink then false else m.inLru)],
       totalInUse := c.totalInUse + m.size)
  }

  /** Destructor of a holder: a region nobody uses any more joins the LRU list at its end. */
  ghost function Unhold<R>(c: Cache<R>, r: R): Cache<R>
    requires r in c.meta && c.meta[r].refcount > 0
  {
    var m := c.meta[r];
    var idle := m.refcount == 1;
    c.(lru := if idle then c.lru + [r] else c.lru,
       meta := c.meta[r := m.(refcount := m.refcount - 1, inLru := if idle then true else m.inLru)],
       totalInUse := c.totalInUse - m.size)
  }

  ghost function SetKey<R>(c: Cache<R>, r: R, key: Key): Cache<R>
    requires r in c.meta
  {
    c.(meta := c.meta[r := c.meta[r].(key := Some(key))])
  }

  ghost function Publish<R>(c: Cache<R>, r: R, key: Key): Cache<R> {
    c.(keys := if key in c.keys then c.keys else c.keys[key := r])
  }

  /** Only link state, reference count and key of `r` change. */
  ghost predicate SameLayout<R>(c: Cache<R>, c': Cache<R>) {
    && c'.adj == c.adj && c'.chunks == c.chunks && c'.totalChunks == c.totalChunks && c'.maxTotal == c.maxTotal
    && c'.pageSize == c.pageSize && c'.sizes == c.sizes && c'.totalAllocated == c.totalAllocated
    && (forall x | x in c.meta :: x in c'.meta && CellOf(c'.meta[x]) == CellOf(c.meta[x]))
    && (forall x | x in c'.meta :: x in c.meta)
  }

  lemma SameLayoutValid<R>(c: Cache<R>, c': Cache<R>)
    requires Valid(c) && SameLayout(c, c')
    requires ListsLru(c'.lru, c'.meta) && States(c'.meta) && Keyed(c'.keys, c'.meta)
    ensures Valid(c') && Drift(c') == Drift(c)
  {
    hide Tiled, States, Keyed, ListsLru;
    assert ListsAll(c'.adj, c'.meta) && ListsFree(c'.sizes, c'.meta) && Sorted(c'.sizes, c'.meta);
    assert TapeOf(c'.adj, c'.meta) == TapeOf(c.adj, c.meta);
  }

  lemma HoldValid<R>(c: Cache<R>, r: R)
    requires Valid(c) && r in c.meta && !c.meta[r].isFree
    ensures Valid(Hold(c, r)) && Drift(Hold(c, r)) == Drift(c)
  {
    hide Tiled, Mapped, ListsAll, ListsFree, Sorted, TapeOf;
    var c' := Hold(c, r);
    WithoutElems(c.lru, r);
    assert ListsLru(c'.lru, c'.meta);
    assert Keyed(c'.keys, c'.meta);
    SameLayoutValid(c, c');
  }

  lemma UnholdValid<R>(c: Cache<R>, r: R)
    requires Valid(c) && r in c.meta && c.meta[r].refcount > 0
    ensures Valid(Unhold(c, r)) && Drift(Unhold(c, r)) == Drift(c)
  {
    hide Tiled, Mapped, ListsAll, ListsFree, Sorted, TapeOf;
    var c' := Unhold(c, r);
    assert r !in c.lru;
    InsertAtElems(c.lru, |c.lru|, r);
    assert c.lru + [r] == InsertAt(c.lru, |c.lru|, r);
    assert ListsLru(c'.lru, c'.meta);
    assert Keyed(c'.keys, c'.meta);
    SameLayoutValid(c, c');
  }

  lemma SetKeyValid<R>(c: Cache<R>, r: R, key: Key)
    requires Valid(c) && r in c.meta && c.meta[r].Pending()
    ensures Valid(SetKey(c, r, key)) && Drift(SetKey(c, r, key)) == Drift(c)
  {
    hide Tiled, Mapped, ListsAll, ListsFree, Sorted, TapeOf;
    var c' := SetKey(c, r, key);
    assert Keyed(c'.keys, c'.meta);
    SameLayoutValid(c, c');
  }

  lemma PublishValid<R>(c: Cache<R>, r: R, key: Key)
    requires Valid(c) && r in c.meta && c.meta[r].refcount > 0 && c.meta[r].key == Some(key)
    ensures Valid(Publish(c, r, key)) && Drift(Publish(c, r, key)) == Drift(c)
  {
    hide Tiled, Mapped, ListsAll, ListsFree, Sorted, TapeOf, ListsLru;
    SameLayoutValid(c, Publish(c, r, key));
  }
}
