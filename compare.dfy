/**
 * The set comparator (`compare_load_sets`): two lists of load records, BASE
 * and scenario, are indexed by key `(bus, loadId)` and split into the pairs
 * present on both sides whose P, Q or status differ, and the records present
 * on one side only, each one-sided list in ascending key order.
 */
module LoadComparison {
  import opened Loads
  import opened KeyOrder

  /** Absolute tolerance for P and Q (`1e-6`). */
  const Tolerance: real := 1.0 / 1000000.0

  function Abs(x: real): real {
    if x < 0.0 then -x else x
  }

  /** P or Q differs by more than the tolerance, or the status differs. */
  predicate Differs(b: LoadInfo, s: LoadInfo) {
    Abs(b.p - s.p) > Tolerance || Abs(b.q - s.q) > Tolerance || b.status != s.status
  }

  /** The keys occurring in a list of records. */
  function KeySet(loads: seq<LoadInfo>): set<Key> {
    set ld | ld in loads :: KeyOf(ld)
  }

  /** The keys of a list of records, in list order. */
  function Keys(loads: seq<LoadInfo>): seq<Key> {
    seq(|loads|, i requires 0 <= i < |loads| => KeyOf(loads[i]))
  }

  /** The dict comprehension `{(ld.bus, ld.load_id): ld for ld in loads}`. */
  function Index(loads: seq<LoadInfo>): map<Key, LoadInfo>
    decreases |loads|
  {
    if loads == [] then map[]
    else Index(loads[..|loads| - 1])[KeyOf(loads[|loads| - 1]) := loads[|loads| - 1]]
  }

  /** `ld` occurs in `loads` and no later record of `loads` has its key. */
  ghost predicate Survives(loads: seq<LoadInfo>, ld: LoadInfo) {
    exists j :: 0 <= j < |loads| && loads[j] == ld &&
      forall j' :: j < j' < |loads| ==> KeyOf(loads[j']) != KeyOf(ld)
  }

  /** The index holds every key of the list, and under each key a record with that key. */
  lemma {:induction false} IndexKeys(loads: seq<LoadInfo>)
    ensures Index(loads).Keys == KeySet(loads)
    ensures forall k :: k in Index(loads) ==> KeyOf(Index(loads)[k]) == k
    decreases |loads|
  {
    if loads != [] {
      var init := loads[..|loads| - 1];
      IndexKeys(init);
      assert loads == init + [loads[|loads| - 1]];
      assert KeySet(loads) == KeySet(init) + {KeyOf(loads[|loads| - 1])};
    }
  }

  /** Every record the index holds is a record of the list. */
  lemma {:induction false} IndexValuesFromList(loads: seq<LoadInfo>)
    ensures forall k :: k in Index(loads) ==> Index(loads)[k] in loads
    decreases |loads|
  {
    if loads != [] {
      var init := loads[..|loads| - 1];
      IndexValuesFromList(init);
      assert loads == init + [loads[|loads| - 1]];
    }
  }

  /** Last write wins: the index holds `ld` under its key exactly when no later record has that key. */
  lemma {:induction false} IndexLastWriteAt(loads: seq<LoadInfo>, ld: LoadInfo)
    ensures (KeyOf(ld) in Index(loads) && Index(loads)[KeyOf(ld)] == ld) <==> Survives(loads, ld)
    decreases |loads|
  {
    if loads != [] {
      var n := |loads| - 1;
      var init, x := loads[..n], loads[n];
      IndexLastWriteAt(init, ld);
      if KeyOf(x) == KeyOf(ld) {
        if x == ld {
          assert Survives(loads, ld) by {
            assert loads[n] == ld;
          }
        }
      } else {
        if Survives(loads, ld) {
          var j :| 0 <= j < |loads| && loads[j] == ld &&
            forall j' :: j < j' < |loads| ==> KeyOf(loads[j']) != KeyOf(ld);
          assert j < n && init[j] == ld;
          assert Survives(init, ld);
        }
        if Survives(init, ld) {
          var j :| 0 <= j < |init| && init[j] == ld &&
            forall j' :: j < j' < |init| ==> KeyOf(init[j']) != KeyOf(ld);
          assert loads[j] == ld;
          assert Survives(loads, ld);
        }
      }
    }
  }

  lemma IndexLastWrite(loads: seq<LoadInfo>)
    ensures forall ld :: (KeyOf(ld) in Index(loads) && Index(loads)[KeyOf(ld)] == ld) <==> Survives(loads, ld)
  {
    forall ld ensures (KeyOf(ld) in Index(loads) && Index(loads)[KeyOf(ld)] == ld) <==> Survives(loads, ld) {
      IndexLastWriteAt(loads, ld);
    }
  }

  /** `[d[k] for k in ks]`. */
  function Lookup(d: map<Key, LoadInfo>, ks: seq<Key>): seq<LoadInfo>
    requires forall i :: 0 <= i < |ks| ==> ks[i] in d
  {
    seq(|ks|, i requires 0 <= i < |ks| => d[ks[i]])
  }

  /** Looking up keys in an index whose records carry their own keys gives back those keys. */
  lemma LookupKeys(d: map<Key, LoadInfo>, ks: seq<Key>)
    requires forall i :: 0 <= i < |ks| ==> ks[i] in d
    requires forall k :: k in d ==> KeyOf(d[k]) == k
    ensures Keys(Lookup(d, ks)) == ks
  {
  }

  /**
   * `[mine_dict[k] for k in sorted(keys_mine - keys_other)]`: one record for
   * every key of `mine` that `other` lacks, in strictly ascending key order.
   */
  function OneSided(mine: seq<LoadInfo>, other: seq<LoadInfo>): (r: seq<LoadInfo>)
    ensures forall k :: k in Keys(r) <==> k in KeySet(mine) && k !in KeySet(other)
    ensures StrictlyAscending(Keys(r))
    ensures |r| == |KeySet(mine) - KeySet(other)|
  {
    var mineDict, otherDict := Index(mine), Index(other);
    IndexKeys(mine);
    IndexKeys(other);
    var ks := SortedKeys(mineDict.Keys - otherDict.Keys);
    LookupKeys(mineDict, ks);
    Lookup(mineDict, ks)
  }

  /** The record listed for a one-sided key is the last record of `mine` with that key. */
  lemma OneSidedSurvivors(mine: seq<LoadInfo>, other: seq<LoadInfo>)
    ensures forall i :: 0 <= i < |OneSided(mine, other)| ==> Survives(mine, OneSided(mine, other)[i])
  {
    var r := OneSided(mine, other);
    var mineDict := Index(mine);
    IndexKeys(mine);
    IndexKeys(other);
    var ks := SortedKeys(mineDict.Keys - Index(other).Keys);
    forall i | 0 <= i < |r| ensures Survives(mine, r[i]) {
      assert r[i] == mineDict[ks[i]];
      IndexLastWriteAt(mine, r[i]);
    }
  }

  /** The pairs the comparator reports as changed. */
  function ChangedSet(base: seq<LoadInfo>, scen: seq<LoadInfo>): set<(LoadInfo, LoadInfo)> {
    var baseDict, scenDict := Index(base), Index(scen);
    set k | k in baseDict.Keys * scenDict.Keys && Differs(baseDict[k], scenDict[k]) :: (baseDict[k], scenDict[k])
  }

  /** `p` is a changed pair whose key lies in `ks`. */
  ghost predicate ChangedAt(baseDict: map<Key, LoadInfo>, scenDict: map<Key, LoadInfo>, ks: set<Key>, p: (LoadInfo, LoadInfo)) {
    var k := KeyOf(p.0);
    k in ks && k in baseDict && k in scenDict && p.0 == baseDict[k] && p.1 == scenDict[k] && Differs(p.0, p.1)
  }

  /**
   * `compare_load_sets`. `changed` comes out in the order the common keys are
   * visited, which is not specified; its elements are exactly `ChangedSet`.
   */
  method CompareLoadSets(base: seq<LoadInfo>, scen: seq<LoadInfo>)
    returns (changed: seq<(LoadInfo, LoadInfo)>, onlyBase: seq<LoadInfo>, onlyScen: seq<LoadInfo>)
    ensures forall p :: p in changed <==> p in ChangedSet(base, scen)
    ensures forall i, j :: 0 <= i < j < |changed| ==> changed[i] != changed[j]
    ensures onlyBase == OneSided(base, scen) && onlyScen == OneSided(scen, base)
    ensures |changed| + |onlyBase| <= |KeySet(base)|
  {
    var baseDict, scenDict := Index(base), Index(scen);
    IndexKeys(base);
    var keysBase, keysScen := baseDict.Keys, scenDict.Keys;
    var commonKeys := keysBase * keysScen;
    var onlyBaseKeys := keysBase - keysScen;
    var onlyScenKeys := keysScen - keysBase;

    changed := [];
    var remaining := commonKeys;
    while remaining != {}
      invariant remaining <= commonKeys
      invariant forall p :: p in changed <==> ChangedAt(baseDict, scenDict, commonKeys - remaining, p)
      invariant forall i, j :: 0 <= i < j < |changed| ==> changed[i] != changed[j]
      invariant |changed| <= |commonKeys - remaining|
      decreases remaining
    {
      var key :| key in remaining;
      var b, s := baseDict[key], scenDict[key];
      if Differs(b, s) {
        assert !ChangedAt(baseDict, scenDict, commonKeys - remaining, (b, s));
        changed := changed + [(b, s)];
      }
      assert commonKeys - (remaining - {key}) == (commonKeys - remaining) + {key};
      remaining := remaining - {key};
    }

    onlyBase := Lookup(baseDict, SortedKeys(onlyBaseKeys));
    onlyScen := Lookup(scenDict, SortedKeys(onlyScenKeys));

    ChangedSetAt(base, scen);
    SplitSize(keysBase, keysScen);
  }

  lemma SplitSize(a: set<Key>, b: set<Key>)
    ensures |a * b| + |a - b| == |a|
  {
    assert a == (a * b) + (a - b) && (a * b) !! (a - b);
  }

  /** The changed pairs are the `ChangedAt` pairs over all common keys. */
  lemma ChangedSetAt(base: seq<LoadInfo>, scen: seq<LoadInfo>)
    ensures forall p :: ChangedAt(Index(base), Index(scen), Index(base).Keys * Index(scen).Keys, p) <==>
      p in ChangedSet(base, scen)
  {
    var baseDict, scenDict := Index(base), Index(scen);
    IndexKeys(base);
    forall p ensures ChangedAt(baseDict, scenDict, baseDict.Keys * scenDict.Keys, p) <==> p in ChangedSet(base, scen) {
      if p in ChangedSet(base, scen) {
        var k :| k in baseDict.Keys * scenDict.Keys && Differs(baseDict[k], scenDict[k]) &&
          p == (baseDict[k], scenDict[k]);
        assert KeyOf(p.0) == k;
      }
    }
  }

  /**
   * A pair is reported changed exactly when each side is the record its list
   * keeps for the shared key (the last one with that key) and P, Q or status
   * differ.
   */
  lemma ChangedIff(base: seq<LoadInfo>, scen: seq<LoadInfo>, b: LoadInfo, s: LoadInfo)
    ensures (b, s) in ChangedSet(base, scen) <==>
      KeyOf(b) == KeyOf(s) && Survives(base, b) && Survives(scen, s) && Differs(b, s)
  {
    IndexKeys(base);
    IndexKeys(scen);
    IndexLastWrite(base);
    IndexLastWrite(scen);
    var baseDict, scenDict := Index(base), Index(scen);
    if (b, s) in ChangedSet(base, scen) {
      var k :| k in baseDict.Keys * scenDict.Keys && Differs(baseDict[k], scenDict[k]) &&
        (b, s) == (baseDict[k], scenDict[k]);
      assert KeyOf(b) == k == KeyOf(s);
    }
    if KeyOf(b) == KeyOf(s) && Survives(base, b) && Survives(scen, s) && Differs(b, s) {
      var k := KeyOf(b);
      assert k in baseDict.Keys * scenDict.Keys && (b, s) == (baseDict[k], scenDict[k]);
    }
  }

  /** A list compared with itself reports nothing. */
  lemma SelfComparison(loads: seq<LoadInfo>)
    ensures ChangedSet(loads, loads) == {}
    ensures OneSided(loads, loads) == []
  {
    var d := Index(loads);
    forall k | k in d.Keys ensures !Differs(d[k], d[k]) {
      assert Abs(d[k].p - d[k].p) == 0.0;
    }
  }

  /** Each key has at most one surviving record. */
  lemma SurvivorUnique(loads: seq<LoadInfo>, a: LoadInfo, b: LoadInfo)
    requires Survives(loads, a) && Survives(loads, b) && KeyOf(a) == KeyOf(b)
    ensures a == b
  {
    IndexLastWriteAt(loads, a);
    IndexLastWriteAt(loads, b);
  }

  /** A one-sided record is a record of its own input. */
  lemma OneSidedFromInput(mine: seq<LoadInfo>, other: seq<LoadInfo>)
    ensures forall ld :: ld in OneSided(mine, other) ==> ld in mine
  {
    OneSidedSurvivors(mine, other);
    forall ld | ld in OneSided(mine, other) ensures ld in mine {
      var i :| 0 <= i < |OneSided(mine, other)| && OneSided(mine, other)[i] == ld;
      assert Survives(mine, ld);
    }
  }

  /**
   * The three outputs concern pairwise disjoint sets of keys, and every
   * output record comes from the corresponding input.
   */
  lemma OutputsDisjoint(base: seq<LoadInfo>, scen: seq<LoadInfo>)
    ensures forall p :: p in ChangedSet(base, scen) ==>
      KeyOf(p.0) !in Keys(OneSided(base, scen)) && KeyOf(p.0) !in Keys(OneSided(scen, base)) &&
      p.0 in base && p.1 in scen
    ensures forall k :: k in Keys(OneSided(base, scen)) ==> k !in Keys(OneSided(scen, base))
    ensures forall ld :: ld in OneSided(base, scen) ==> ld in base
    ensures forall ld :: ld in OneSided(scen, base) ==> ld in scen
  {
    var baseDict, scenDict := Index(base), Index(scen);
    IndexKeys(base);
    IndexKeys(scen);
    IndexValuesFromList(base);
    IndexValuesFromList(scen);
    forall p | p in ChangedSet(base, scen)
      ensures KeyOf(p.0) in KeySet(base) && KeyOf(p.0) in KeySet(scen) && p.0 in base && p.1 in scen
    {
      var k :| k in baseDict.Keys * scenDict.Keys && Differs(baseDict[k], scenDict[k]) &&
        p == (baseDict[k], scenDict[k]);
      assert KeyOf(p.0) == k;
    }
    OneSidedFromInput(base, scen);
    OneSidedFromInput(scen, base);
  }

  /** Distinct keys give as many keys as records. */
  lemma {:induction false} KeySetSize(loads: seq<LoadInfo>)
    requires forall i, j :: 0 <= i < j < |loads| ==> KeyOf(loads[i]) != KeyOf(loads[j])
    ensures |KeySet(loads)| == |loads|
    decreases |loads|
  {
    if loads != [] {
      var init := loads[..|loads| - 1];
      KeySetSize(init);
      var last := loads[|loads| - 1];
      assert loads == init + [last];
      assert KeySet(loads) == KeySet(init) + {KeyOf(last)};
      assert KeyOf(last) !in KeySet(init);
    }
  }

  /**
   * Inputs with disjoint key sets: nothing changed, and each one-sided list
   * is its input (keys distinct) listed in ascending key order.
   */
  lemma DisjointInputs(base: seq<LoadInfo>, scen: seq<LoadInfo>)
    requires KeySet(base) !! KeySet(scen)
    requires forall i, j :: 0 <= i < j < |base| ==> KeyOf(base[i]) != KeyOf(base[j])
    ensures ChangedSet(base, scen) == {}
    ensures |OneSided(base, scen)| == |base|
    ensures forall ld :: ld in OneSided(base, scen) <==> ld in base
    ensures StrictlyAscending(Keys(OneSided(base, scen)))
  {
    IndexKeys(base);
    IndexKeys(scen);
    assert Index(base).Keys * Index(scen).Keys == {};
    KeySetSize(base);
    assert KeySet(base) - KeySet(scen) == KeySet(base);
    OneSidedFromInput(base, scen);
    DistinctKeysListed(base, scen);
  }

  /** With distinct keys every record survives, so each one without a key in `other` is listed. */
  lemma DistinctKeysListed(mine: seq<LoadInfo>, other: seq<LoadInfo>)
    requires forall i, j :: 0 <= i < j < |mine| ==> KeyOf(mine[i]) != KeyOf(mine[j])
    ensures forall ld :: ld in mine && KeyOf(ld) !in KeySet(other) ==> ld in OneSided(mine, other)
  {
    var r := OneSided(mine, other);
    OneSidedSurvivors(mine, other);
    forall ld | ld in mine && KeyOf(ld) !in KeySet(other) ensures ld in r {
      var j :| 0 <= j < |mine| && mine[j] == ld;
      assert Survives(mine, ld);
      OneSidedKeyOfSurvivor(mine, other, ld);
      var i :| 0 <= i < |r| && Keys(r)[i] == KeyOf(ld);
      SurvivorUnique(mine, ld, r[i]);
    }
  }

  /**
   * When `mine` repeats a key, only the last record with it is listed: two
   * records with one key against an empty list give a one-element list.
   */
  lemma RepeatedKeyListedOnce(a: LoadInfo, a2: LoadInfo)
    requires KeyOf(a) == KeyOf(a2)
    ensures OneSided([a, a2], []) == [a2]
  {
    var mine := [a, a2];
    assert Survives(mine, a2) by {
      assert mine[1] == a2;
    }
    forall ld | Survives(mine, ld) ensures ld == a2 {
      SurvivorUnique(mine, ld, a2);
    }
    assert KeySet([]) == {};
    assert Keys([a2]) == [KeyOf(a2)];
    OneSidedUnique(mine, [], [a2]);
  }

  /**
   * Reordering an input that repeats a key changes which record is last for
   * that key, and so changes the one-sided list.
   */
  lemma ReorderingRepeatedKeyMatters(a: LoadInfo, a2: LoadInfo)
    requires KeyOf(a) == KeyOf(a2) && a != a2
    ensures OneSided([a, a2], []) != OneSided([a2, a], [])
  {
    RepeatedKeyListedOnce(a, a2);
    RepeatedKeyListedOnce(a2, a);
    assert [a2] != [a];
  }

  /**
   * The one-sided list is the only list of surviving one-sided records in
   * strictly ascending key order: shuffling an input that keeps the same
   * surviving records does not change it.
   */
  lemma OneSidedUnique(mine: seq<LoadInfo>, other: seq<LoadInfo>, r: seq<LoadInfo>)
    requires StrictlyAscending(Keys(r))
    requires forall ld :: ld in r <==> Survives(mine, ld) && KeyOf(ld) !in KeySet(other)
    ensures r == OneSided(mine, other)
  {
    var o := OneSided(mine, other);
    SameOneSidedKeys(mine, other, r);
    AscendingListingUnique(Keys(r), Keys(o));
    OneSidedSurvivors(mine, other);
    forall i | 0 <= i < |r| ensures r[i] == o[i] {
      assert r[i] in r;
      assert Keys(r)[i] == Keys(o)[i];
      SurvivorUnique(mine, r[i], o[i]);
    }
  }

  lemma SameOneSidedKeys(mine: seq<LoadInfo>, other: seq<LoadInfo>, r: seq<LoadInfo>)
    requires forall ld :: ld in r <==> Survives(mine, ld) && KeyOf(ld) !in KeySet(other)
    ensures forall k :: k in Keys(r) <==> k in Keys(OneSided(mine, other))
  {
    var o := OneSided(mine, other);
    OneSidedSurvivors(mine, other);
    forall k | k in Keys(r) ensures k in Keys(o) {
      var i :| 0 <= i < |r| && Keys(r)[i] == k;
      assert r[i] in r;
      OneSidedKeyOfSurvivor(mine, other, r[i]);
    }
    forall k | k in Keys(o) ensures k in Keys(r) {
      var i :| 0 <= i < |o| && Keys(o)[i] == k;
      assert Survives(mine, o[i]);
      assert o[i] in r;
      var j :| 0 <= j < |r| && r[j] == o[i];
      assert Keys(r)[j] == k;
    }
  }

  /** The key of a surviving record that `other` lacks is a one-sided key. */
  lemma OneSidedKeyOfSurvivor(mine: seq<LoadInfo>, other: seq<LoadInfo>, ld: LoadInfo)
    requires Survives(mine, ld) && KeyOf(ld) !in KeySet(other)
    ensures KeyOf(ld) in Keys(OneSided(mine, other))
  {
    var j :| 0 <= j < |mine| && mine[j] == ld && forall j' :: j < j' < |mine| ==> KeyOf(mine[j']) != KeyOf(ld);
    assert ld in mine;
  }

  /** The tolerance is exclusive: a P difference of exactly 1e-6 is no change, a larger one is. */
  lemma ToleranceBoundary(b: LoadInfo)
    ensures !Differs(b, b.(p := b.p + 1.0 / 1000000.0))
    ensures Differs(b, b.(p := b.p + 1.0000011 / 1000000.0))
    ensures Differs(b, b.(status := b.status + 1))
    ensures Differs(b, b.(q := b.q - 1.0))
  {
  }

  /**
   * BASE {(1,"A"): 10, 5, in service; (1,"B"): 2, 1, in service} against
   * SCEN {(1,"A"): 10, 5, out of service; (1,"C"): 3, 0, in service}.
   */
  lemma ExampleComparison()
    ensures var baseA, baseB := LoadInfo(1, "A", 10.0, 5.0, 1), LoadInfo(1, "B", 2.0, 1.0, 1);
      var scenA, scenC := LoadInfo(1, "A", 10.0, 5.0, 0), LoadInfo(1, "C", 3.0, 0.0, 1);
      ChangedSet([baseA, baseB], [scenA, scenC]) == {(baseA, scenA)} &&
      OneSided([baseA, baseB], [scenA, scenC]) == [baseB] &&
      OneSided([scenA, scenC], [baseA, baseB]) == [scenC]
  {
    var baseA, baseB := LoadInfo(1, "A", 10.0, 5.0, 1), LoadInfo(1, "B", 2.0, 1.0, 1);
    var scenA, scenC := LoadInfo(1, "A", 10.0, 5.0, 0), LoadInfo(1, "C", 3.0, 0.0, 1);
    var base, scen := [baseA, baseB], [scenA, scenC];
    assert "A" != "B" && "A" != "C" && "B" != "C" by {
      assert "A"[0] != "B"[0] && "A"[0] != "C"[0] && "B"[0] != "C"[0];
    }
    IndexOfTwo(baseA, baseB);
    IndexOfTwo(scenA, scenC);
    var baseDict, scenDict := Index(base), Index(scen);
    assert baseDict.Keys * scenDict.Keys == {(1, "A")};
    assert ChangedSet(base, scen) == {(baseA, scenA)} by {
      assert Differs(baseDict[(1, "A")], scenDict[(1, "A")]);
    }
    assert baseDict.Keys - scenDict.Keys == {(1, "B")};
    assert scenDict.Keys - baseDict.Keys == {(1, "C")};
    SortedSingleton((1, "B"));
    SortedSingleton((1, "C"));
  }

  lemma IndexOfTwo(a: LoadInfo, b: LoadInfo)
    requires KeyOf(a) != KeyOf(b)
    ensures Index([a, b]) == map[KeyOf(a) := a, KeyOf(b) := b]
  {
    assert [a, b][..1] == [a] && [a][..0] == [];
    assert Index([a]) == map[KeyOf(a) := a];
  }

  lemma SortedSingleton(k: Key)
    ensures SortedKeys({k}) == [k]
  {
    var r := SortedKeys({k});
    assert r[0] == k;
  }
}
