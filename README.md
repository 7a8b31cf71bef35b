# TARA load comparison: enumerator and comparator

A Dafny model of the domain logic of `tara_load_compare.py`, a small tool that
compares the electrical loads at one bus of a BASE power-system case with the
loads at the same bus of scenario cases. The tool finds the loads at a bus by
probing the load accessor `getLoad` with a fixed list of ids
(tara_load_compare.py:43-63), and then compares two such lists. This project
models both pieces:

- **Load enumerator** (`get_loads_at_bus`, `enumerate.dfy`). It probes the
  vendor accessor `getLoad(busNum, loadId)` with 134 fixed candidate ids, in
  this order: "1".."9", then "A".."Z", then "01".."99". Each id the accessor
  resolves becomes a `LoadInfo(bus, loadId, p, q, status)` record. The record's
  id, P, Q and status are taken from the accessor's answer, and its bus number
  is the one the caller passed. The accessor is a parameter of type
  `(int, string) -> Option<RawLoad>`.
- **Set comparator** (`compare_load_sets`, `compare.dfy`). It indexes both
  lists by key `(bus, loadId)`; when a list repeats a key, the last record
  with that key wins. It returns three things:
  - `changed`: the pairs whose key is on both sides and whose P or Q differ by
    more than 1e-6, or whose status differs;
  - `onlyBase` and `onlyScen`: the records whose key is on one side only, each
    list in ascending key order.

Module layout:

- `wrappers.dfy`: `Option`.
- `loads.dfy`: the records `LoadInfo` and `RawLoad`, and the key.
- `key_order.dfy`: Python's tuple order on `(int, str)`, and `sorted` of a set
  of keys.
- `enumerate.dfy`: the enumerator.
- `compare.dfy`: the comparator.

`GetLoadsAtBus` and `CompareLoadSets` are methods with loops, as in the source.
`GetLoadsAtBus` is proved equal to the specification function `Probe`.
`CompareLoadSets` is proved against the functions `ChangedSet` and `OneSided`.
The lemmas state the properties of those functions.

Behaviour notes:

- Keys can repeat within one enumeration result. The record's id is the
  accessor's `ld.id` (tara_load_compare.py:58), not the probed string.
  `EnumeratedKeysMayRepeat` shows an accessor that answers every probe with
  load "1" and so yields that key twice. `EnumeratedKeysUnique` proves that
  keys are unique when the accessor answers with the load it was asked for.
- Accessor exceptions propagate. `get_loads_at_bus` has no `try` around
  `tara.getLoad` (tara_load_compare.py:50-53), and `run_comparison` calls it
  outside any `try` (tara_load_compare.py:278, 311). The model's accessor is
  total and reports absence with `None`.
- `changed` is not sorted. It is built while iterating over a set
  (tara_load_compare.py:95). `CompareLoadSets` visits the common keys in an
  unspecified order (`:|`) and promises only which pairs `changed` holds, with
  no repeats.
- A repeated key in an input yields one one-sided record. The dict
  comprehensions keep only the last record with a key
  (tara_load_compare.py:80-85), so `onlyBase` is the base list sorted by key
  only when the base keys are distinct (`DisjointInputs` requires that).
  `RepeatedKeyListedOnce` shows two records with one key giving a one-element
  list.

## Model

| member | source | states |
|---|---|---|
| `LoadEnumeration.CandidateIdsShape` | tara_load_compare.py:44-48 | The candidate list has 134 pairwise distinct ids, so no id is probed twice. Positions 0-8 hold one digit 1-9, positions 9-34 hold one letter A-Z, and positions 35-133 hold two characters. Each group is in ascending order, from "1" to "9", "A" to "Z" and "01" to "99". |
| `LoadEnumeration.CandidateIdsExactly` | tara_load_compare.py:44-48 | A string is probed exactly when it is one digit other than 0, one upper-case letter, or two digits other than "00". |
| `LoadEnumeration.GetLoadsAtBus` | tara_load_compare.py:37-65 | The loop's result equals `Probe` over the candidate list. It has at most 134 records, and every record's bus is `busNum`. |
| `LoadEnumeration.ProbeAppend` | tara_load_compare.py:50-63 | Probing `a + b` gives the records of `a` followed by those of `b`, so probe order is kept. |
| `LoadEnumeration.ProbeSingle` | tara_load_compare.py:51-63 | One probe adds no record when the accessor answers `None`. Otherwise it adds exactly the record built from the answer. |
| `LoadEnumeration.ProbeNothing` | tara_load_compare.py:52-53 | Ids that the accessor resolves nowhere add no records. |
| `LoadEnumeration.ProbeRecords` | tara_load_compare.py:50-63 | There are no more records than probed ids. Every record has the caller's bus, and its id, P, Q and status are the accessor's answer for some probed id. Every resolved id yields its record. |
| `LoadEnumeration.ProbeThreeLoads` | tara_load_compare.py:44-65 | When the accessor resolves exactly "3", "K" and "07", the enumeration gives exactly those three records, in that order. |
| `LoadEnumeration.ProbeKeysUnique` | tara_load_compare.py:50-63 | If the probed ids are distinct and the accessor echoes the requested id, the records' keys are pairwise distinct and every id is one of the probed ids. |
| `LoadEnumeration.EnumeratedKeysMayRepeat` | tara_load_compare.py:55-58 | Because the record id is the accessor's `ld.id`, an accessor that answers every probe with load "1" gives at least two records with the same key. |
| `LoadEnumeration.EnumeratedKeysUnique` | tara_load_compare.py:44-63 | If the accessor echoes the requested id, the enumerator never repeats a key. |
| `KeyOrder.KeyLessStrictTotalOrder` | tara_load_compare.py:105-106 | The lexicographic order on `(bus, loadId)` that `sorted` uses is irreflexive, transitive and total. |
| `KeyOrder.SortedKeys` | tara_load_compare.py:105-106 | `sorted(keys)` is strictly ascending, holds exactly the set's keys, and has one entry per key. |
| `KeyOrder.AscendingListingUnique` | tara_load_compare.py:105-106 | Two strictly ascending listings of the same keys are equal, so the listing depends only on the set of keys. |
| `LoadComparison.IndexKeys` | tara_load_compare.py:80-85 | The dict's keys are exactly the keys in the list, and the record stored under a key has that key. |
| `LoadComparison.IndexValuesFromList` | tara_load_compare.py:80-85 | Every record in the dict comes from the list. |
| `LoadComparison.IndexLastWriteAt` | tara_load_compare.py:80-85 | Last write wins: the dict holds `ld` under its key if and only if `ld` is in the list and no later record has the same key. |
| `LoadComparison.IndexLastWrite` | tara_load_compare.py:80-85 | The last-write-wins property, for every record at once. |
| `LoadComparison.OneSided` | tara_load_compare.py:87-92 | The keys of `[mine_dict[k] for k in sorted(keys_mine - keys_other)]` are exactly the keys of `mine` minus the keys of `other`. They are strictly ascending, and the list has one record per such key. |
| `LoadComparison.OneSidedSurvivors` | tara_load_compare.py:105-106 | Each one-sided record is the last record of its input with that key. |
| `LoadComparison.CompareLoadSets` | tara_load_compare.py:68-108 | `changed` holds exactly the pairs in `ChangedSet`, with no repeats. `onlyBase` and `onlyScen` are the two one-sided lists. `|changed| + |onlyBase|` is at most the number of distinct base keys. |
| `LoadComparison.ChangedIff` | tara_load_compare.py:94-103 | `(b, s)` is reported as changed if and only if the two records share a key, each is the last record with that key in its list, and P or Q differ by more than the tolerance or the status differs. |
| `LoadComparison.SelfComparison` | tara_load_compare.py:87-108 | Comparing any list with itself gives no changed pairs and empty one-sided lists. |
| `LoadComparison.OutputsDisjoint` | tara_load_compare.py:87-106 | The keys of the changed pairs, of `onlyBase` and of `onlyScen` are pairwise disjoint. Every output record comes from the matching input. |
| `LoadComparison.DisjointInputs` | tara_load_compare.py:87-106 | Take inputs with disjoint key sets, where the base keys are distinct. Nothing is changed, and `onlyBase` is the base list sorted by key: it has the same length and the same records, and is strictly ascending. |
| `LoadComparison.RepeatedKeyListedOnce` | tara_load_compare.py:80-106 | Two records with the same key, compared against an empty list, give a one-sided list that holds only the second record. |
| `LoadComparison.OneSidedUnique` | tara_load_compare.py:105-106 | Any list of the surviving one-sided records in strictly ascending key order equals `OneSided`, so reordering an input does not change the result as long as each key keeps the same last record (for example, when the keys are distinct). |
| `LoadComparison.ReorderingRepeatedKeyMatters` | tara_load_compare.py:80-106 | When an input repeats a key with two different records, swapping them changes the one-sided list, because the last record with the key is the one listed. |
| `LoadComparison.ToleranceBoundary` | tara_load_compare.py:98-102 | A P difference of exactly 1e-6 is not a change. A P difference of 1.0000011e-6 is a change. A status difference alone, or a Q difference alone, is a change. |
| `LoadComparison.ExampleComparison` | tara_load_compare.py:68-108 | Worked example. BASE has (1,"A") in service and (1,"B"). SCEN has (1,"A") out of service and (1,"C"). The result is changed {((1,"A"), (1,"A"))}, onlyBase [(1,"B")], onlyScen [(1,"C")]. |

## Left out

- The Qt window class, dialogs, the folder listing and the `.raw` filter, the
  report text, and the per-case timing with `time.perf_counter`. These are
  user interface, file-system I/O and wall-clock readings.
- The vendor library (`pyPowerGEM.pyTARA`) and its `loadRawCase` file loader.
  The case and its accessor appear only as the `getLoad` function parameter,
  and opening a case is not modelled.
- The `str`, `float` and `int` coercions of the vendor object's attributes. The
  accessor is assumed to return typed values (`RawLoad`).
- Exceptions raised by the accessor, which `get_loads_at_bus` does not catch.
  The modelled accessor cannot fail.
- Floating point. P and Q are exact `real`s, so `abs(b.p - s.p)` has no IEEE-754
  rounding, and the tolerance is exactly `1/1000000`. With doubles, the
  boundary in `ToleranceBoundary` depends on the operands: `abs(0.5 - 0.500001)`
  is slightly above `1e-6`, so that pair is flagged, while `10.0` against
  `10.000001` is not flagged. A NaN P or Q never compares greater, so such a
  pair is never flagged on that field.
- The order of `changed`, which depends on Python's set iteration order.
  `CompareLoadSets` fixes the set of pairs and promises no repeats, but not an
  order.
- Whether the inputs are left unchanged needs no statement here, because Dafny
  sequences are values.
