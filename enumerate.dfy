/**
 * The load enumerator (`get_loads_at_bus`): every id of a fixed candidate
 * list is probed with the load accessor, and each load it resolves becomes a
 * record.
 */
module LoadEnumeration {
  import opened Wrappers
  import opened Loads
  import opened KeyOrder

  /** The vendor accessor `getLoad(busNum, loadId)`: a load, or nothing. */
  type LoadAccessor = (int, string) -> Option<RawLoad>

  function DigitChar(d: nat): char
    requires d < 10
  {
    ('0' as int + d) as char
  }

  /** `str(i)` for `i` in 1..9. */
  function SingleDigitIds(): seq<string> {
    seq(9, i requires 0 <= i < 9 => [DigitChar(i + 1)])
  }

  /** The upper-case letters A..Z, one string each. */
  function LetterIds(): seq<string> {
    seq(26, i requires 0 <= i < 26 => [('A' as int + i) as char])
  }

  /** `f"{i:02d}"` for `i` in 1..99. */
  function PaddedIds(): seq<string> {
    seq(99, i requires 0 <= i < 99 => [DigitChar((i + 1) / 10), DigitChar((i + 1) % 10)])
  }

  /** The ids probed at every bus, in probe order. */
  function CandidateIds(): seq<string> {
    SingleDigitIds() + LetterIds() + PaddedIds()
  }

  predicate IsDigit(c: char) {
    '0' <= c <= '9'
  }

  /**
   * Which strings are candidates, said without the list: one digit other
   * than 0, one upper-case letter, or two digits other than "00".
   */
  predicate IsCandidateId(s: string) {
    || (|s| == 1 && ('1' <= s[0] <= '9' || 'A' <= s[0] <= 'Z'))
    || (|s| == 2 && IsDigit(s[0]) && IsDigit(s[1]) && s != "00")
  }

  lemma PaddedIdsDistinct(i: nat, j: nat)
    requires i < j < 99
    ensures PaddedIds()[i] != PaddedIds()[j]
    ensures StrLess(PaddedIds()[i], PaddedIds()[j])
  {
    var a, b := PaddedIds()[i], PaddedIds()[j];
    assert a[0] == DigitChar((i + 1) / 10) && a[1] == DigitChar((i + 1) % 10);
    assert b[0] == DigitChar((j + 1) / 10) && b[1] == DigitChar((j + 1) % 10);
    if (i + 1) / 10 == (j + 1) / 10 {
      assert (i + 1) % 10 < (j + 1) % 10;
      assert a[1..][0] < b[1..][0];
    } else {
      assert (i + 1) / 10 < (j + 1) / 10;
    }
  }

  /** Each single-character candidate is the string holding that character. */
  lemma SingleCharIds(i: nat)
    requires i < 35
    ensures |CandidateIds()[i]| == 1
    ensures i < 9 ==> CandidateIds()[i][0] as int == '1' as int + i
    ensures 9 <= i ==> CandidateIds()[i][0] as int == 'A' as int + (i - 9)
  {
  }

  /**
   * The candidate list: 134 pairwise distinct ids, each group in ascending
   * code-point order, "1".."9" first, then "A".."Z", then "01".."99", and
   * exactly the strings `IsCandidateId` describes.
   */
  lemma CandidateIdsShape()
    ensures |CandidateIds()| == 134
    ensures CandidateIds()[0] == "1" && CandidateIds()[8] == "9"
    ensures CandidateIds()[9] == "A" && CandidateIds()[34] == "Z"
    ensures CandidateIds()[35] == "01" && CandidateIds()[133] == "99"
    ensures forall i :: 0 <= i < 9 ==> |CandidateIds()[i]| == 1 && '1' <= CandidateIds()[i][0] <= '9'
    ensures forall i :: 9 <= i < 35 ==> |CandidateIds()[i]| == 1 && 'A' <= CandidateIds()[i][0] <= 'Z'
    ensures forall i :: 35 <= i < 134 ==> |CandidateIds()[i]| == 2
    ensures forall i, j :: 0 <= i < j < 9 ==> StrLess(CandidateIds()[i], CandidateIds()[j])
    ensures forall i, j :: 9 <= i < j < 35 ==> StrLess(CandidateIds()[i], CandidateIds()[j])
    ensures forall i, j :: 35 <= i < j < 134 ==> StrLess(CandidateIds()[i], CandidateIds()[j])
    ensures forall i, j :: 0 <= i < j < 134 ==> CandidateIds()[i] != CandidateIds()[j]
  {
    var c := CandidateIds();
    assert c[..9] == SingleDigitIds() && c[9..35] == LetterIds() && c[35..] == PaddedIds();
    forall i | 35 <= i < 134 ensures |c[i]| == 2 {
      assert c[i] == PaddedIds()[i - 35];
    }
    forall i, j | 0 <= i < j < 35 ensures StrLess(c[i], c[j]) || (i < 9 <= j) {
      SingleCharIds(i);
      SingleCharIds(j);
    }
    forall i, j | 35 <= i < j < 134 ensures StrLess(c[i], c[j]) && c[i] != c[j] {
      PaddedIdsDistinct(i - 35, j - 35);
    }
    forall i, j | 0 <= i < j < 134 ensures c[i] != c[j] {
      if j < 35 {
        SingleCharIds(i);
        SingleCharIds(j);
      } else if i < 35 {
        SingleCharIds(i);
      }
    }
  }

  /** A string is probed if and only if it is a candidate id. */
  lemma CandidateIdsExactly(s: string)
    ensures s in CandidateIds() <==> IsCandidateId(s)
  {
    var c := CandidateIds();
    if s in c {
      var i :| 0 <= i < 134 && c[i] == s;
      if i < 35 {
        SingleCharIds(i);
      } else {
        var n := i - 35 + 1;
        assert s == [DigitChar(n / 10), DigitChar(n % 10)];
      }
    }
    if IsCandidateId(s) {
      if |s| == 1 && '1' <= s[0] <= '9' {
        var i := s[0] as int - '1' as int;
        SingleCharIds(i);
        assert c[i] == s;
      } else if |s| == 1 {
        var i := s[0] as int - 'A' as int + 9;
        SingleCharIds(i);
        assert c[i] == s;
      } else {
        var n := (s[0] as int - '0' as int) * 10 + (s[1] as int - '0' as int);
        assert 1 <= n <= 99;
        assert n / 10 == s[0] as int - '0' as int && n % 10 == s[1] as int - '0' as int;
        assert c[35 + n - 1] == PaddedIds()[n - 1];
        assert c[35 + n - 1] == s;
      }
    }
  }

  /**
   * What the probing loop has collected after probing `ids`: one record per
   * id the accessor resolves, in probe order.
   */
  function Probe(getLoad: LoadAccessor, bus: int, ids: seq<string>): seq<LoadInfo>
    decreases |ids|
  {
    if ids == [] then []
    else
      var before := Probe(getLoad, bus, ids[..|ids| - 1]);
      match getLoad(bus, ids[|ids| - 1])
      case None => before
      case Some(raw) => before + [FromRaw(bus, raw)]
  }

  /** `get_loads_at_bus`: probe every candidate id at `busNum`. */
  method GetLoadsAtBus(getLoad: LoadAccessor, busNum: int) returns (loadsHere: seq<LoadInfo>)
    ensures loadsHere == Probe(getLoad, busNum, CandidateIds())
    ensures |loadsHere| <= 134
    ensures forall k :: 0 <= k < |loadsHere| ==> loadsHere[k].bus == busNum
  {
    loadsHere := [];
    var candidateIds := CandidateIds();
    for n := 0 to |candidateIds|
      invariant loadsHere == Probe(getLoad, busNum, candidateIds[..n])
    {
      assert candidateIds[..n + 1][..n] == candidateIds[..n];
      var ld := getLoad(busNum, candidateIds[n]);
      if ld.None? {
        continue;
      }
      loadsHere := loadsHere + [FromRaw(busNum, ld.value)];
    }
    assert candidateIds[..|candidateIds|] == candidateIds;
    CandidateIdsShape();
    ProbeRecords(getLoad, busNum, candidateIds);
  }

  /**
   * Probing is a homomorphism over concatenation: probing `a` and then `b`
   * yields the records of `a` followed by those of `b` (probe order is kept).
   */
  lemma {:induction false} ProbeAppend(getLoad: LoadAccessor, bus: int, a: seq<string>, b: seq<string>)
    ensures Probe(getLoad, bus, a + b) == Probe(getLoad, bus, a) + Probe(getLoad, bus, b)
    decreases |b|
  {
    if b == [] {
      assert a + b == a;
    } else {
      var b' := b[..|b| - 1];
      assert (a + b)[..|a + b| - 1] == a + b';
      assert (a + b)[|a + b| - 1] == b[|b| - 1];
      ProbeAppend(getLoad, bus, a, b');
    }
  }

  /** Probing a single id yields its record when the accessor resolves it, and nothing otherwise. */
  lemma ProbeSingle(getLoad: LoadAccessor, bus: int, id: string)
    ensures getLoad(bus, id).None? ==> Probe(getLoad, bus, [id]) == []
    ensures getLoad(bus, id).Some? ==> Probe(getLoad, bus, [id]) == [FromRaw(bus, getLoad(bus, id).value)]
  {
    assert [id][..0] == [];
  }

  /** Ids the accessor resolves nowhere contribute no record. */
  lemma {:induction false} ProbeNothing(getLoad: LoadAccessor, bus: int, ids: seq<string>)
    requires forall j :: 0 <= j < |ids| ==> getLoad(bus, ids[j]).None?
    ensures Probe(getLoad, bus, ids) == []
    decreases |ids|
  {
    if ids != [] {
      ProbeNothing(getLoad, bus, ids[..|ids| - 1]);
    }
  }

  /**
   * Every record comes from the accessor's answer for some probed id (bus
   * number from the caller; id, P, Q and status from the answer), there are
   * no more records than ids, and every id the accessor resolves yields one.
   */
  lemma {:induction false} ProbeRecords(getLoad: LoadAccessor, bus: int, ids: seq<string>)
    ensures |Probe(getLoad, bus, ids)| <= |ids|
    ensures forall k :: 0 <= k < |Probe(getLoad, bus, ids)| ==>
      var r := Probe(getLoad, bus, ids)[k];
      r.bus == bus &&
      exists j :: 0 <= j < |ids| && getLoad(bus, ids[j]) == Some(RawLoad(r.loadId, r.p, r.q, r.status))
    ensures forall j :: 0 <= j < |ids| && getLoad(bus, ids[j]).Some? ==>
      FromRaw(bus, getLoad(bus, ids[j]).value) in Probe(getLoad, bus, ids)
    decreases |ids|
  {
    if ids != [] {
      var ids' := ids[..|ids| - 1];
      ProbeRecords(getLoad, bus, ids');
      var before := Probe(getLoad, bus, ids');
      var after := Probe(getLoad, bus, ids);
      forall k | 0 <= k < |after|
        ensures var r := after[k];
          exists j :: 0 <= j < |ids| && getLoad(bus, ids[j]) == Some(RawLoad(r.loadId, r.p, r.q, r.status))
      {
        var r := after[k];
        if k < |before| {
          var j :| 0 <= j < |ids'| && getLoad(bus, ids'[j]) == Some(RawLoad(r.loadId, r.p, r.q, r.status));
          assert ids[j] == ids'[j];
        } else {
          assert getLoad(bus, ids[|ids| - 1]) == Some(RawLoad(r.loadId, r.p, r.q, r.status));
        }
      }
      forall j | 0 <= j < |ids| && getLoad(bus, ids[j]).Some?
        ensures FromRaw(bus, getLoad(bus, ids[j]).value) in after
      {
        if j < |ids'| {
          assert ids[j] == ids'[j];
        }
      }
    }
  }

  /** Probing the ids `lo..hi` of `ids` extends what probing `..lo` collected. */
  lemma ProbeSplit(getLoad: LoadAccessor, bus: int, ids: seq<string>, lo: nat, hi: nat)
    requires lo <= hi <= |ids|
    ensures Probe(getLoad, bus, ids[..hi]) == Probe(getLoad, bus, ids[..lo]) + Probe(getLoad, bus, ids[lo..hi])
  {
    assert ids[..hi] == ids[..lo] + ids[lo..hi];
    ProbeAppend(getLoad, bus, ids[..lo], ids[lo..hi]);
  }

  /** The accessor resolves exactly the ids "3", "K" and "07" at `bus`. */
  ghost predicate ResolvesThreeIds(getLoad: LoadAccessor, bus: int) {
    forall id :: getLoad(bus, id).Some? <==> (id == "3" || id == "K" || id == "07")
  }

  /** Under `ResolvesThreeIds`, a run of candidates that skips positions 2, 19 and 41 adds nothing. */
  lemma ProbeGap(getLoad: LoadAccessor, bus: int, lo: nat, hi: nat)
    requires ResolvesThreeIds(getLoad, bus)
    requires lo <= hi <= 134
    requires !(lo <= 2 < hi) && !(lo <= 19 < hi) && !(lo <= 41 < hi)
    ensures Probe(getLoad, bus, CandidateIds()[..hi]) == Probe(getLoad, bus, CandidateIds()[..lo])
  {
    var c := CandidateIds();
    CandidateIdsShape();
    assert c[2] == "3" && c[19] == "K" && c[41] == "07";
    forall j | 0 <= j < hi - lo ensures getLoad(bus, c[lo..hi][j]).None? {
      assert c[lo..hi][j] == c[lo + j];
      assert c[lo + j] != c[2] && c[lo + j] != c[19] && c[lo + j] != c[41];
    }
    ProbeNothing(getLoad, bus, c[lo..hi]);
    ProbeSplit(getLoad, bus, c, lo, hi);
  }

  lemma HitPositions()
    ensures |CandidateIds()| == 134
    ensures CandidateIds()[2] == "3" && CandidateIds()[19] == "K" && CandidateIds()[41] == "07"
  {
    SingleCharIds(2);
    SingleCharIds(19);
    assert CandidateIds()[41] == PaddedIds()[6];
  }

  /** Under `ResolvesThreeIds`, the candidate at position `n` adds its record. */
  lemma ProbeHit(getLoad: LoadAccessor, bus: int, n: nat)
    requires ResolvesThreeIds(getLoad, bus)
    requires n == 2 || n == 19 || n == 41
    ensures getLoad(bus, CandidateIds()[n]).Some?
    ensures Probe(getLoad, bus, CandidateIds()[..n + 1]) ==
      Probe(getLoad, bus, CandidateIds()[..n]) + [FromRaw(bus, getLoad(bus, CandidateIds()[n]).value)]
  {
    var c := CandidateIds();
    HitPositions();
    assert c[n..n + 1] == [c[n]];
    ProbeSingle(getLoad, bus, c[n]);
    ProbeSplit(getLoad, bus, c, n, n + 1);
  }

  /**
   * An accessor that resolves exactly the ids "3", "K" and "07" yields
   * exactly their three records, in that order, whatever else is probed.
   */
  lemma ProbeThreeLoads(getLoad: LoadAccessor, bus: int)
    requires ResolvesThreeIds(getLoad, bus)
    ensures Probe(getLoad, bus, CandidateIds()) ==
      [FromRaw(bus, getLoad(bus, "3").value), FromRaw(bus, getLoad(bus, "K").value),
       FromRaw(bus, getLoad(bus, "07").value)]
  {
    var c := CandidateIds();
    HitPositions();
    var r3, rK, r07 := FromRaw(bus, getLoad(bus, "3").value), FromRaw(bus, getLoad(bus, "K").value),
      FromRaw(bus, getLoad(bus, "07").value);
    assert Probe(getLoad, bus, c[..0]) == [];
    ProbeGap(getLoad, bus, 0, 2);
    ProbeHit(getLoad, bus, 2);
    assert Probe(getLoad, bus, c[..3]) == [r3];
    ProbeGap(getLoad, bus, 3, 19);
    ProbeHit(getLoad, bus, 19);
    assert Probe(getLoad, bus, c[..20]) == [r3, rK];
    ProbeGap(getLoad, bus, 20, 41);
    ProbeHit(getLoad, bus, 41);
    assert Probe(getLoad, bus, c[..42]) == [r3, rK, r07];
    ProbeGap(getLoad, bus, 42, 134);
    assert c[..134] == c;
  }

  /** The accessor answers with the load it was asked for. */
  predicate EchoesId(getLoad: LoadAccessor, bus: int, ids: seq<string>) {
    forall j :: 0 <= j < |ids| && getLoad(bus, ids[j]).Some? ==> getLoad(bus, ids[j]).value.id == ids[j]
  }

  /**
   * Keys are unique within one enumeration result when the probed ids are
   * distinct and the accessor answers with the load it was asked for.
   */
  lemma {:induction false} ProbeKeysUnique(getLoad: LoadAccessor, bus: int, ids: seq<string>)
    requires forall i, j :: 0 <= i < j < |ids| ==> ids[i] != ids[j]
    requires EchoesId(getLoad, bus, ids)
    ensures forall k :: 0 <= k < |Probe(getLoad, bus, ids)| ==> Probe(getLoad, bus, ids)[k].loadId in ids
    ensures forall k, l :: 0 <= k < l < |Probe(getLoad, bus, ids)| ==>
      KeyOf(Probe(getLoad, bus, ids)[k]) != KeyOf(Probe(getLoad, bus, ids)[l])
    decreases |ids|
  {
    if ids != [] {
      var ids' := ids[..|ids| - 1];
      ProbeKeysUnique(getLoad, bus, ids');
      var before := Probe(getLoad, bus, ids');
      var last := ids[|ids| - 1];
      assert last !in ids';
      forall k | 0 <= k < |before| ensures before[k].loadId in ids && before[k].loadId != last {
        var j :| 0 <= j < |ids'| && ids'[j] == before[k].loadId;
        assert ids[j] == ids'[j];
      }
    }
  }

  /** An accessor that answers every query with the load whose id is "1". */
  function AlwaysLoadOne(bus: int, id: string): Option<RawLoad> {
    Some(RawLoad("1", 0.0, 0.0, 1))
  }

  /**
   * Without that hypothesis keys can repeat: the record id is the accessor's
   * answer, not the probed id, so an accessor that answers every probe with
   * load "1" yields that key for the first two probes already.
   */
  lemma EnumeratedKeysMayRepeat(bus: int)
    ensures |Probe(AlwaysLoadOne, bus, CandidateIds())| >= 2
    ensures KeyOf(Probe(AlwaysLoadOne, bus, CandidateIds())[0]) == KeyOf(Probe(AlwaysLoadOne, bus, CandidateIds())[1])
  {
    var c := CandidateIds();
    var rec := FromRaw(bus, RawLoad("1", 0.0, 0.0, 1));
    HitPositions();
    assert c[..2][..1] == c[..1] && c[..1][..0] == [];
    assert Probe(AlwaysLoadOne, bus, c[..1]) == [rec];
    assert Probe(AlwaysLoadOne, bus, c[..2]) == [rec, rec];
    ProbeSplit(AlwaysLoadOne, bus, c, 2, 134);
    assert c[..134] == c;
  }

  /** With an accessor that answers with the load it was asked for, the enumerator never repeats a key. */
  lemma EnumeratedKeysUnique(getLoad: LoadAccessor, bus: int)
    requires EchoesId(getLoad, bus, CandidateIds())
    ensures forall k, l :: 0 <= k < l < |Probe(getLoad, bus, CandidateIds())| ==>
      KeyOf(Probe(getLoad, bus, CandidateIds())[k]) != KeyOf(Probe(getLoad, bus, CandidateIds())[l])
  {
    CandidateIdsShape();
    ProbeKeysUnique(getLoad, bus, CandidateIds());
  }

}
