/**
 * The order in which the comparison lists one-sided loads: tuples
 * `(bus, loadId)` compared lexicographically, the bus number first and then
 * the id string code point by code point, a proper prefix coming first.
 */
module KeyOrder {
  import opened Loads

  /** Lexicographic "strictly less" on strings, by code point. */
  predicate StrLess(s: string, t: string)
    decreases |s|
  {
    if s == [] then t != []
    else if t == [] then false
    else s[0] < t[0] || (s[0] == t[0] && StrLess(s[1..], t[1..]))
  }

  /** Lexicographic "strictly less" on keys. */
  predicate KeyLess(a: Key, b: Key) {
    a.0 < b.0 || (a.0 == b.0 && StrLess(a.1, b.1))
  }

  lemma {:induction false} StrLessIrreflexive(s: string)
    ensures !StrLess(s, s)
    decreases |s|
  {
    if s != [] {
      StrLessIrreflexive(s[1..]);
    }
  }

  lemma {:induction false} StrLessTransitive(s: string, t: string, u: string)
    requires StrLess(s, t) && StrLess(t, u)
    ensures StrLess(s, u)
    decreases |s|
  {
    if s != [] && s[0] == t[0] && t[0] == u[0] {
      StrLessTransitive(s[1..], t[1..], u[1..]);
    }
  }

  lemma {:induction false} StrLessTotal(s: string, t: string)
    requires s != t
    ensures StrLess(s, t) || StrLess(t, s)
    decreases |s|
  {
    if s != [] && t != [] && s[0] == t[0] {
      assert s == [s[0]] + s[1..] && t == [t[0]] + t[1..];
      StrLessTotal(s[1..], t[1..]);
    }
  }

  /** KeyLess is a strict total order: irreflexive, transitive and total. */
  lemma KeyLessStrictTotalOrder()
    ensures forall a :: !KeyLess(a, a)
    ensures forall a, b, c :: KeyLess(a, b) && KeyLess(b, c) ==> KeyLess(a, c)
    ensures forall a, b :: a != b ==> KeyLess(a, b) || KeyLess(b, a)
  {
    forall a: Key ensures !KeyLess(a, a) {
      StrLessIrreflexive(a.1);
    }
    forall a: Key, b: Key, c: Key | KeyLess(a, b) && KeyLess(b, c) ensures KeyLess(a, c) {
      if a.0 == b.0 == c.0 {
        StrLessTransitive(a.1, b.1, c.1);
      }
    }
    forall a: Key, b: Key | a != b ensures KeyLess(a, b) || KeyLess(b, a) {
      if a.0 == b.0 {
        StrLessTotal(a.1, b.1);
      }
    }
  }

  /** `r` lists keys in strictly ascending order (so without duplicates). */
  predicate StrictlyAscending(r: seq<Key>) {
    forall i, j :: 0 <= i < j < |r| ==> KeyLess(r[i], r[j])
  }

  /** `m` is the smallest key of `ks`. */
  predicate IsLeast(m: Key, ks: set<Key>) {
    m in ks && forall k :: k in ks ==> !KeyLess(k, m)
  }

  lemma {:induction false} LeastExists(ks: set<Key>)
    requires ks != {}
    ensures exists m :: IsLeast(m, ks)
    decreases ks
  {
    var x :| x in ks;
    if ks != {x} {
      LeastExists(ks - {x});
      var m :| IsLeast(m, ks - {x});
      KeyLessStrictTotalOrder();
      if KeyLess(x, m) {
        assert IsLeast(x, ks);
      } else {
        assert IsLeast(m, ks);
      }
    } else {
      KeyLessStrictTotalOrder();
      assert IsLeast(x, ks);
    }
  }

  /** Python's `sorted` applied to a set of keys. */
  function SortedKeys(ks: set<Key>): (r: seq<Key>)
    ensures StrictlyAscending(r)
    ensures forall k :: k in r <==> k in ks
    ensures forall i :: 0 <= i < |r| ==> r[i] in ks
    ensures |r| == |ks|
    decreases ks
  {
    if ks == {} then []
    else
      LeastExists(ks);
      KeyLessStrictTotalOrder();
      var m :| IsLeast(m, ks);
      [m] + SortedKeys(ks - {m})
  }

  /**
   * A set has only one strictly ascending listing, so the listing depends on
   * the set of keys alone and not on the order the keys were found in.
   */
  lemma {:induction false} AscendingListingUnique(r1: seq<Key>, r2: seq<Key>)
    requires StrictlyAscending(r1) && StrictlyAscending(r2)
    requires forall k :: k in r1 <==> k in r2
    ensures r1 == r2
    decreases |r1|
  {
    KeyLessStrictTotalOrder();
    assert r2 != [] ==> r2[0] in r1;
    if r1 != [] {
      assert r1[0] in r2;
      assert r2[0] in r1;
      forall k ensures k in r1[1..] <==> k in r2[1..] {
        if k in r1[1..] {
          assert k in r2;
        }
        if k in r2[1..] {
          assert k in r1;
        }
      }
      AscendingListingUnique(r1[1..], r2[1..]);
      assert r1 == [r1[0]] + r1[1..] && r2 == [r2[0]] + r2[1..];
    }
  }

}
