/**
 * The ordered queries the balancer makes of its `TreeMap<Integer, String>`.
 * The map itself is a Dafny `map<int, V>`; `put` is `m[k := v]` and `remove`
 * is `m - {k}`. What the tree adds is its key order, which `firstKey()` and
 * the first key of `tailMap(h)` expose: both are minima of a key set here.
 */
module TreeMaps {
  import opened Wrappers

  /** A set other than the empty one has a member. */
  lemma Inhabited(s: set<int>)
    ensures s != {} ==> exists x :: x in s
  {
    if forall x :: x !in s {
      assert s == {};
    }
  }

  /** A non-empty finite set of keys has a least element. */
  lemma LeastExists(s: set<int>)
    requires s != {}
    ensures exists m :: m in s && forall k | k in s :: m <= k
  {
    Inhabited(s);
    var x :| x in s;
    if s != {x} {
      LeastExists(s - {x});
      var r :| r in s - {x} && forall k | k in s - {x} :: r <= k;
      var m := if r < x then r else x;
      forall k | k in s
        ensures m <= k
      {
        if k != x {
          assert k in s - {x};
        }
      }
    } else {
      assert forall k | k in s :: x <= k;
    }
  }

  /** The least element of a non-empty finite set of keys. */
  function MinKey(s: set<int>): (m: int)
    requires s != {}
    ensures m in s
    ensures forall k | k in s :: m <= k
  {
    LeastExists(s);
    var m :| m in s && forall k | k in s :: m <= k;
    m
  }

  /** `firstKey()`: the smallest key of a non-empty map. */
  function FirstKey<V>(t: map<int, V>): (k: int)
    requires t != map[]
    ensures k in t
    ensures forall j | j in t :: k <= j
  {
    assert |t.Keys| == |t| != 0;
    MinKey(t.Keys)
  }

  /** The keys of `t` at or above `h`: the key set of `tailMap(h)`. */
  function TailKeys<V>(t: map<int, V>, h: int): (s: set<int>)
    ensures forall k :: k in s <==> k in t && k >= h
  {
    set k | k in t && k >= h
  }

  /** The first key of `tailMap(h)`, or None when that tail is empty. */
  function CeilingKey<V>(t: map<int, V>, h: int): (r: Option<int>)
    ensures r.Some? ==> r.value in t && r.value >= h
    ensures r.Some? ==> forall k | k in t && k >= h :: r.value <= k
    ensures r.None? ==> forall k | k in t :: k < h
  {
    var tail := TailKeys(t, h);
    if tail == {} then None else Some(MinKey(tail))
  }

  /** The first key of a tail never lies below the first key of a later tail. */
  lemma CeilingKeyMonotone<V>(t: map<int, V>, h1: int, h2: int)
    requires h1 <= h2 && CeilingKey(t, h2).Some?
    ensures CeilingKey(t, h1).Some? && CeilingKey(t, h1).value <= CeilingKey(t, h2).value
  {
    var k2 := CeilingKey(t, h2).value;
    assert k2 in TailKeys(t, h1);
  }
}
