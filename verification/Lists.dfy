/** Lists without repetition, as used for the intrusive containers of the cache. */
module Lists {

  ghost function IndexOf<R>(s: seq<R>, r: R): (i: nat)
    requires r in s
    ensures i < |s| && s[i] == r
  {
    var i :| 0 <= i < |s| && s[i] == r; i
  }

  /** No element occurs twice: every position is the one found by `IndexOf`. */
  ghost predicate Distinct<R>(s: seq<R>) {
    forall i | 0 <= i < |s| :: IndexOf(s, s[i]) == i
  }

  ghost function RemoveAt<R>(s: seq<R>, i: nat): (s': seq<R>)
    requires i < |s|
  {
    seq(|s| - 1, j requires 0 <= j < |s| - 1 => if j < i then s[j] else s[j + 1])
  }

  ghost function InsertAt<R>(s: seq<R>, i: nat, r: R): (s': seq<R>)
    requires i <= |s|
  {
    seq(|s| + 1, j requires 0 <= j <= |s| => if j < i then s[j] else if j == i then r else s[j - 1])
  }

  /** The list after `erase(iterator_to(r))`. */
  ghost function Without<R>(s: seq<R>, r: R): seq<R>
  {
    if r in s then RemoveAt(s, IndexOf(s, r)) else s
  }

  lemma RemoveAtIs<R>(s: seq<R>, i: nat)
    requires i < |s|
    ensures s[..i] + s[i + 1..] == RemoveAt(s, i)
  {
  }

  lemma InsertAtIs<R>(s: seq<R>, i: nat, r: R)
    requires i <= |s|
    ensures s[..i] + [r] + s[i..] == InsertAt(s, i, r)
  {
  }

  lemma RemoveAtElems<R>(s: seq<R>, i: nat)
    requires Distinct(s) && i < |s|
    ensures Distinct(RemoveAt(s, i)) && s[i] !in RemoveAt(s, i)
    ensures forall x | x in s && x != s[i] :: x in RemoveAt(s, i)
    ensures forall x | x in RemoveAt(s, i) :: x in s
  {
    var w := RemoveAt(s, i);
    forall x | x in s && x != s[i] ensures x in w {
      var j := IndexOf(s, x);
      assert w[if j < i then j else j - 1] == x;
    }
  }

  lemma InsertAtElems<R>(s: seq<R>, i: nat, r: R)
    requires Distinct(s) && i <= |s| && r !in s
    ensures Distinct(InsertAt(s, i, r)) && r in InsertAt(s, i, r)
    ensures forall x | x in s :: x in InsertAt(s, i, r)
    ensures forall x | x in InsertAt(s, i, r) :: x == r || x in s
  {
    var w := InsertAt(s, i, r);
    assert w[i] == r;
    forall x | x in s ensures x in w {
      var j := IndexOf(s, x);
      assert w[if j < i then j else j + 1] == x;
    }
  }

  lemma WithoutElems<R>(s: seq<R>, r: R)
    requires Distinct(s)
    ensures Distinct(Without(s, r)) && r !in Without(s, r)
    ensures forall x | x in s && x != r :: x in Without(s, r)
    ensures forall x | x in Without(s, r) :: x in s
    ensures |Without(s, r)| == |s| - if r in s then 1 else 0
  {
    if r in s {
      RemoveAtElems(s, IndexOf(s, r));
    }
  }

  // ---------- Order ----------

  ghost predicate Before<R>(s: seq<R>, x: R, y: R) {
    x in s && y in s && IndexOf(s, x) < IndexOf(s, y)
  }

  /** Some elements are gone; the others are in the order they were in. */
  ghost predicate Thinned<R>(s: seq<R>, s': seq<R>) {
    && (forall x | x in s' :: x in s)
    && (forall x, y | x in s' && y in s' :: Before(s', x, y) <==> Before(s, x, y))
  }

  lemma RemoveAtThins<R>(s: seq<R>, d: nat)
    requires Distinct(s) && d < |s|
    ensures Thinned(s, RemoveAt(s, d))
  {
    var w := RemoveAt(s, d);
    RemoveAtElems(s, d);
    forall x | x in w ensures IndexOf(w, x) == if IndexOf(s, x) < d then IndexOf(s, x) else IndexOf(s, x) - 1 {
      var j := IndexOf(s, x);
      assert w[if j < d then j else j - 1] == x;
    }
  }

  lemma WithoutThins<R>(s: seq<R>, r: R)
    requires Distinct(s)
    ensures Thinned(s, Without(s, r))
  {
    if r in s { RemoveAtThins(s, IndexOf(s, r)); }
  }

  lemma ThinnedTwice<R>(s: seq<R>, s': seq<R>, s'': seq<R>)
    requires Thinned(s, s') && Thinned(s', s'')
    ensures Thinned(s, s'')
  {
  }
}
