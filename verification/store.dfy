/**
 The eager multi-map store `UrlEncodedData`: the extracted data segment, the
 ledger of distinct keys in first-seen order, and the map from each key to
 its values in arrival order; with its read views.

 Views that walk the map take `order`, the map's iteration order. The source
 keeps the map in a hash map whose iteration order is unspecified, so every
 property below is proved for every `order` that enumerates the keys once.
 */
module UrlEncodedData {
  import opened Common
  import opened Pairs
  import Segment
  import FormUrlencoded

  datatype Store = Store(
    dataStr: string,                      // the extracted data segment
    originalKeysInOrder: seq<string>,     // ledger of distinct keys, first-seen order
    entries: map<string, seq<string>>     // key -> values in arrival order
  )

  /**
   What parsing `pairs` produces: the map holds exactly the keys of `pairs`,
   each with all of its values in input order, and the ledger lists each
   key once in order of first appearance.
   */
  ghost predicate Represents(st: Store, pairs: seq<Pair>)
  {
    && Groups(st.entries, pairs)
    && InFirstSeenOrder(st.originalKeysInOrder, pairs)
  }

  /** The construction loop over already decoded pairs. */
  method FromPairs(dataStr: string, pairs: seq<Pair>) returns (st: Store)
    ensures st.dataStr == dataStr
    ensures Represents(st, pairs)
  {
    var entries: map<string, seq<string>> := map[];
    var ledger: seq<string> := [];
    var i := 0;
    while i < |pairs|
      invariant 0 <= i <= |pairs|
      invariant Groups(entries, pairs[..i])
      invariant InFirstSeenOrder(ledger, pairs[..i])
    {
      var p := pairs[i];
      ghost var done := pairs[..i];
      AbsorbStep(entries, done, p);
      FirstSeenStep(ledger, done, p);
      // append the value to the key's list, creating the list when absent
      entries := entries[p.0 := (if p.0 in entries then entries[p.0] else []) + [p.1]];
      // record the key in the ledger the first time it is seen
      if p.0 !in ledger {
        ledger := ledger + [p.0];
      }
      TakeSnoc(pairs, i);
      i := i + 1;
    }
    assert pairs[..|pairs|] == pairs;
    st := Store(dataStr, ledger, entries);
  }

  /**
   One pass of the construction loop keeps the map in step with the pairs
   consumed so far (the ledger's half is `FirstSeenStep`).
   */
  lemma AbsorbStep(entries: map<string, seq<string>>, ps: seq<Pair>, p: Pair)
    requires Groups(entries, ps)
    ensures Groups(entries[p.0 := (if p.0 in entries then entries[p.0] else []) + [p.1]], ps + [p])
  {
    KeysOfSnoc(ps, p);
    forall k ensures ValuesOf(ps + [p], k) == ValuesOf(ps, k) + (if p.0 == k then [p.1] else []) {
      ValuesOfSnoc(ps, p, k);
    }
    KeysOfValues(ps, p.0);
  }

  /**
   `parse_from_data_str`: extract the data segment, decode it into pairs and
   fold them into the store.
   */
  method ParseFromDataStr(s: string, decode: string -> string) returns (st: Store)
    ensures st.dataStr == Segment.ExtractUrlEncodedString(s)
    ensures Represents(st, FormUrlencoded.Parse(st.dataStr, decode))
  {
    var dataStr := Segment.ExtractUrlEncodedString(s);
    var pairs := FormUrlencoded.Parse(dataStr, decode);
    st := FromPairs(dataStr, pairs);
  }

  /**
   A parsed store: the ledger holds each key once and exactly the map's keys,
   every key has at least one value, and the map has as many keys as the
   input has distinct keys.
   */
  lemma ParsedStoreShape(st: Store, pairs: seq<Pair>)
    requires Represents(st, pairs)
    ensures NoDup(st.originalKeysInOrder)
    ensures forall k :: k in st.originalKeysInOrder <==> k in st.entries
    ensures forall k :: k in st.entries ==> |st.entries[k]| > 0
    ensures |st.entries| == |st.originalKeysInOrder|
    ensures IsIterationOrder(st.originalKeysInOrder, st.entries)
  {
    forall k | k in st.entries ensures |st.entries[k]| > 0 {
      KeysOfValues(pairs, k);
    }
    NoDupCardinality(st.originalKeysInOrder);
    assert st.entries.Keys == set x | x in st.originalKeysInOrder;
  }

  // ----- read views -----

  /** `as_map_of_single_key_to_multiple_values`: the map itself. */
  function AsMapOfMultipleValues(st: Store): map<string, seq<string>>
  {
    st.entries
  }

  /**
   After parsing, the multi-value map has one entry per distinct key of the
   input (as many as the ledger), holding that key's values in input order.
   */
  lemma MultipleValuesAfterParse(st: Store, pairs: seq<Pair>)
    requires Represents(st, pairs)
    ensures forall k :: k in AsMapOfMultipleValues(st) <==> exists i :: 0 <= i < |pairs| && pairs[i].0 == k
    ensures forall k :: k in AsMapOfMultipleValues(st) ==> AsMapOfMultipleValues(st)[k] == ValuesOf(pairs, k)
    ensures |AsMapOfMultipleValues(st)| == |st.originalKeysInOrder|
  {
    ParsedStoreShape(st, pairs);
  }

  /**
   `as_pairs`: every (key, value) of the map, walking the map in `order`.
   Whatever the order, each key's values come out in list order.
   */
  function AsPairs(st: Store, order: seq<string>): (r: seq<Pair>)
    requires IsIterationOrder(order, st.entries)
    ensures forall k :: ValuesOf(r, k) == if k in st.entries then st.entries[k] else []
  {
    var r := Flatten(st.entries, order);
    assert forall k :: ValuesOf(r, k) == if k in st.entries then st.entries[k] else [] by {
      forall k ensures ValuesOf(r, k) == if k in st.entries then st.entries[k] else [] {
        ValuesOfFlatten(st.entries, order, k);
      }
    }
    r
  }

  /**
   After parsing, `as_pairs` is a permutation of the decoded pairs, keeping
   each key's values in input order: no pair is lost or duplicated.
   */
  lemma AsPairsAfterParse(st: Store, pairs: seq<Pair>, order: seq<string>)
    requires Groups(st.entries, pairs)
    requires IsIterationOrder(order, st.entries)
    ensures forall k :: ValuesOf(AsPairs(st, order), k) == ValuesOf(pairs, k)
    ensures multiset(AsPairs(st, order)) == multiset(pairs)
    ensures |AsPairs(st, order)| == |pairs|
  {
    forall k ensures ValuesOf(AsPairs(st, order), k) == ValuesOf(pairs, k) {
      KeysOfValues(pairs, k);
    }
    SameGroupsSamePairs(AsPairs(st, order), pairs);
  }

  /**
   The first phase of `as_pairs_of_original_order`: walk the ledger, and for
   each key still in the working copy emit its values and remove it. Returns
   the emitted pairs and what is left of the copy.
   */
  function ReplayLedger(ledger: seq<string>, clone: map<string, seq<string>>)
    : (seq<Pair>, map<string, seq<string>>)
  {
    if |ledger| == 0 then ([], clone)
    else if ledger[0] in clone then
      var rest := ReplayLedger(ledger[1..], clone - {ledger[0]});
      (Expand(ledger[0], clone[ledger[0]]) + rest.0, rest.1)
    else
      ReplayLedger(ledger[1..], clone)
  }

  /** The ledger phase emits, for each key, its values when the key is on the ledger and in the copy, else nothing. */
  lemma {:induction false} ReplayValues(ledger: seq<string>, clone: map<string, seq<string>>, k: string)
    ensures ValuesOf(ReplayLedger(ledger, clone).0, k) == if k in clone && k in ledger then clone[k] else []
  {
    if |ledger| > 0 {
      var key := ledger[0];
      assert k in ledger <==> k == key || k in ledger[1..];
      if key in clone {
        var rest := ReplayLedger(ledger[1..], clone - {key});
        ReplayValues(ledger[1..], clone - {key}, k);
        ValuesOfAppend(Expand(key, clone[key]), rest.0, k);
        ValuesOfExpand(key, clone[key], k);
      } else {
        ReplayValues(ledger[1..], clone, k);
      }
    }
  }

  /** What the ledger phase leaves in the copy is exactly the entries whose keys are not on the ledger. */
  lemma {:induction false} ReplayLeftover(ledger: seq<string>, clone: map<string, seq<string>>)
    ensures ReplayLedger(ledger, clone).1 == map k | k in clone && k !in ledger :: clone[k]
  {
    if |ledger| > 0 {
      var key := ledger[0];
      assert forall k :: k in ledger <==> k == key || k in ledger[1..];
      if key in clone {
        ReplayLeftover(ledger[1..], clone - {key});
      } else {
        ReplayLeftover(ledger[1..], clone);
      }
    }
  }

  /**
   `as_pairs_of_original_order`: the ledger's keys first, each with all its
   values, then the keys the ledger does not name, in map order. Each key
   appears with exactly its list of values, in list order.
   */
  function AsPairsOfOriginalOrder(st: Store, order: seq<string>): (r: seq<Pair>)
    requires IsIterationOrder(order, st.entries)
    ensures forall k :: ValuesOf(r, k) == if k in st.entries then st.entries[k] else []
  {
    var (replayed, leftover) := ReplayLedger(st.originalKeysInOrder, st.entries);
    var r := replayed + Flatten(leftover, order);
    assert forall k :: ValuesOf(r, k) == if k in st.entries then st.entries[k] else [] by {
      ReplayLeftover(st.originalKeysInOrder, st.entries);
      forall k ensures ValuesOf(r, k) == if k in st.entries then st.entries[k] else [] {
        ValuesOfAppend(replayed, Flatten(leftover, order), k);
        ValuesOfFlatten(leftover, order, k);
        ReplayValues(st.originalKeysInOrder, st.entries, k);
      }
    }
    r
  }

  lemma {:induction false} FlattenSkipsUnvisited(m: map<string, seq<string>>, order: seq<string>, key: string)
    requires key !in order
    ensures Flatten(m - {key}, order) == Flatten(m, order)
  {
    if |order| > 0 {
      assert order[0] != key;
      FlattenSkipsUnvisited(m, order[1..], key);
    }
  }

  lemma {:induction false} FlattenOfEmpty(order: seq<string>)
    ensures Flatten(map[], order) == []
  {
    if |order| > 0 {
      FlattenOfEmpty(order[1..]);
    }
  }

  /** Replaying a duplicate-free ledger is flattening the map along it. */
  lemma {:induction false} ReplayIsFlatten(ledger: seq<string>, clone: map<string, seq<string>>)
    requires NoDup(ledger)
    ensures ReplayLedger(ledger, clone).0 == Flatten(clone, ledger)
  {
    if |ledger| > 0 {
      var key := ledger[0];
      NoDupTail(ledger);
      if key in clone {
        ReplayIsFlatten(ledger[1..], clone - {key});
        FlattenSkipsUnvisited(clone, ledger[1..], key);
      } else {
        ReplayIsFlatten(ledger[1..], clone);
      }
    }
  }

  /**
   Right after parsing, the left-over phase adds nothing: the original-order
   view is the ledger's keys in first-seen order, each followed by all its
   values, and it is a permutation of both the decoded pairs and `as_pairs`.
   */
  lemma OriginalOrderAfterParse(st: Store, pairs: seq<Pair>, order: seq<string>)
    requires Represents(st, pairs)
    requires IsIterationOrder(order, st.entries)
    ensures ReplayLedger(st.originalKeysInOrder, st.entries).1 == map[]
    ensures AsPairsOfOriginalOrder(st, order) == Flatten(st.entries, st.originalKeysInOrder)
    ensures multiset(AsPairsOfOriginalOrder(st, order)) == multiset(pairs)
    ensures multiset(AsPairsOfOriginalOrder(st, order)) == multiset(AsPairs(st, order))
  {
    ParsedStoreShape(st, pairs);
    var (replayed, leftover) := ReplayLedger(st.originalKeysInOrder, st.entries);
    ReplayLeftover(st.originalKeysInOrder, st.entries);
    assert leftover == map[];
    ReplayIsFlatten(st.originalKeysInOrder, st.entries);
    FlattenOfEmpty(order);
    assert AsPairsOfOriginalOrder(st, order) == replayed + [];
    AsPairsAfterParse(st, pairs, order);
    forall k ensures ValuesOf(AsPairsOfOriginalOrder(st, order), k) == ValuesOf(pairs, k) {
      KeysOfValues(pairs, k);
    }
    SameGroupsSamePairs(AsPairsOfOriginalOrder(st, order), pairs);
  }

  /**
   When every key's pairs already sit together in the input, the
   original-order view gives back exactly the decoded pairs, whatever the
   map's iteration order.
   */
  lemma OriginalOrderRoundTrip(st: Store, pairs: seq<Pair>, order: seq<string>)
    requires Represents(st, pairs)
    requires KeysContiguous(pairs)
    requires IsIterationOrder(order, st.entries)
    ensures AsPairsOfOriginalOrder(st, order) == pairs
  {
    OriginalOrderAfterParse(st, pairs, order);
    FlattenFirstSeen(st.originalKeysInOrder, st.entries, pairs);
  }

  /**
   The converse: whenever the original-order view gives back the decoded
   pairs exactly, each key's pairs were already side by side.
   */
  lemma OriginalOrderRoundTripOnlyIf(st: Store, pairs: seq<Pair>, order: seq<string>)
    requires Represents(st, pairs)
    requires IsIterationOrder(order, st.entries)
    requires AsPairsOfOriginalOrder(st, order) == pairs
    ensures KeysContiguous(pairs)
  {
    OriginalOrderAfterParse(st, pairs, order);
    ParsedStoreShape(st, pairs);
    FlattenContiguous(st.entries, st.originalKeysInOrder);
  }

  /** The original-order view reproduces the decoded pairs exactly when each key's pairs are adjacent. */
  lemma OriginalOrderIsInputIff(st: Store, pairs: seq<Pair>, order: seq<string>)
    requires Represents(st, pairs)
    requires IsIterationOrder(order, st.entries)
    ensures AsPairsOfOriginalOrder(st, order) == pairs <==> KeysContiguous(pairs)
  {
    if KeysContiguous(pairs) {
      OriginalOrderRoundTrip(st, pairs, order);
    }
    if AsPairsOfOriginalOrder(st, order) == pairs {
      OriginalOrderRoundTripOnlyIf(st, pairs, order);
    }
  }

  /**
   The fold of `as_map_of_single_key_to_first_occurrence_value`: walking the
   pairs, a key's entry is inserted only when absent (`or_insert`), so each
   key keeps the first value seen.
   */
  function FirstOccurrences(ps: seq<Pair>): (r: map<string, string>)
    ensures forall k :: k in r <==> ValuesOf(ps, k) != []
    ensures forall k :: k in r ==> r[k] == ValuesOf(ps, k)[0]
  {
    if |ps| == 0 then map[]
    else
      var m := FirstOccurrences(ps[..|ps| - 1]);
      var (k, v) := ps[|ps| - 1];
      if k in m then m else m[k := v]
  }

  /**
   The fold of `as_map_of_single_key_to_last_occurrence_value`: every pair
   overwrites its key's entry (`insert`), so each key keeps the last value.
   */
  function LastOccurrences(ps: seq<Pair>): (r: map<string, string>)
    ensures forall k :: k in r <==> ValuesOf(ps, k) != []
    ensures forall k :: k in r ==> r[k] == Last(ValuesOf(ps, k))
  {
    if |ps| == 0 then map[]
    else
      var m := LastOccurrences(ps[..|ps| - 1]);
      var (k, v) := ps[|ps| - 1];
      m[k := v]
  }

  /**
   `as_map_of_single_key_to_first_occurrence_value`: one entry per key with
   values, holding the head of its list, whatever the map's iteration order.
   */
  function AsMapOfFirstOccurrenceValue(st: Store, order: seq<string>): (r: map<string, string>)
    requires IsIterationOrder(order, st.entries)
    ensures forall k :: k in r <==> k in st.entries && st.entries[k] != []
    ensures forall k :: k in r ==> r[k] == st.entries[k][0]
  {
    FirstOccurrences(AsPairs(st, order))
  }

  /**
   `as_map_of_single_key_to_last_occurrence_value`: one entry per key with
   values, holding the end of its list, whatever the map's iteration order.
   */
  function AsMapOfLastOccurrenceValue(st: Store, order: seq<string>): (r: map<string, string>)
    requires IsIterationOrder(order, st.entries)
    ensures forall k :: k in r <==> k in st.entries && st.entries[k] != []
    ensures forall k :: k in r ==> r[k] == Last(st.entries[k])
  {
    var ps := AsPairs(st, order);
    var r := LastOccurrences(ps);
    assert forall k :: k in r ==> r[k] == Last(st.entries[k]) by {
      forall k | k in r ensures r[k] == Last(st.entries[k]) {
        assert ValuesOf(ps, k) == st.entries[k];
      }
    }
    r
  }

  /**
   After parsing, the first-occurrence map has one entry per distinct key of
   the input, holding the first value that key had in the input.
   */
  lemma FirstOccurrenceAfterParse(st: Store, pairs: seq<Pair>, order: seq<string>)
    requires Groups(st.entries, pairs)
    requires IsIterationOrder(order, st.entries)
    ensures AsMapOfFirstOccurrenceValue(st, order).Keys == KeysOf(pairs)
    ensures forall k :: k in KeysOf(pairs) ==>
      ValuesOf(pairs, k) != [] && AsMapOfFirstOccurrenceValue(st, order)[k] == ValuesOf(pairs, k)[0]
  {
    GroupsNonEmpty(st.entries, pairs);
    var r := AsMapOfFirstOccurrenceValue(st, order);
    assert r.Keys == st.entries.Keys;
    forall k | k in KeysOf(pairs) ensures ValuesOf(pairs, k) != [] && r[k] == ValuesOf(pairs, k)[0] {
      KeysOfValues(pairs, k);
      assert st.entries[k] == ValuesOf(pairs, k);
    }
  }

  /**
   After parsing, the last-occurrence map has one entry per distinct key of
   the input, holding the last value that key had in the input.
   */
  lemma LastOccurrenceAfterParse(st: Store, pairs: seq<Pair>, order: seq<string>)
    requires Groups(st.entries, pairs)
    requires IsIterationOrder(order, st.entries)
    ensures AsMapOfLastOccurrenceValue(st, order).Keys == KeysOf(pairs)
    ensures forall k :: k in KeysOf(pairs) ==>
      ValuesOf(pairs, k) != [] && AsMapOfLastOccurrenceValue(st, order)[k] == Last(ValuesOf(pairs, k))
  {
    GroupsNonEmpty(st.entries, pairs);
    var r := AsMapOfLastOccurrenceValue(st, order);
    assert r.Keys == st.entries.Keys;
    forall k | k in KeysOf(pairs) ensures ValuesOf(pairs, k) != [] && r[k] == Last(ValuesOf(pairs, k)) {
      KeysOfValues(pairs, k);
      assert st.entries[k] == ValuesOf(pairs, k);
    }
  }

  /** Every key with values gets exactly one entry in each occurrence map. */
  lemma OccurrenceMapSizes(st: Store, order: seq<string>)
    requires IsIterationOrder(order, st.entries)
    requires forall k :: k in st.entries ==> st.entries[k] != []
    ensures |AsMapOfFirstOccurrenceValue(st, order)| == |st.entries|
    ensures |AsMapOfLastOccurrenceValue(st, order)| == |st.entries|
  {
    assert AsMapOfFirstOccurrenceValue(st, order).Keys == st.entries.Keys;
    assert AsMapOfLastOccurrenceValue(st, order).Keys == st.entries.Keys;
  }

  /** A map grouping some pairs has no key without values. */
  lemma GroupsNonEmpty(entries: map<string, seq<string>>, pairs: seq<Pair>)
    requires Groups(entries, pairs)
    ensures forall k :: k in entries ==> entries[k] != []
  {
    forall k | k in entries ensures entries[k] != [] {
      KeysOfValues(pairs, k);
    }
  }

  // ----- getters -----

  /** The first-occurrence map is the map of each non-empty list to its head. */
  lemma FirstOccurrenceMapIs(st: Store, order: seq<string>)
    requires IsIterationOrder(order, st.entries)
    ensures AsMapOfFirstOccurrenceValue(st, order)
            == map k | k in st.entries && st.entries[k] != [] :: st.entries[k][0]
  {
  }

  /** The last-occurrence map is the map of each non-empty list to its last element. */
  lemma LastOccurrenceMapIs(st: Store, order: seq<string>)
    requires IsIterationOrder(order, st.entries)
    ensures AsMapOfLastOccurrenceValue(st, order)
            == map k | k in st.entries && st.entries[k] != [] :: Last(st.entries[k])
  {
  }

  /** `get_multiple_values`: the key's list of values, `None` for an absent key. */
  function GetMultipleValues(st: Store, key: string): Option<seq<string>>
  {
    Get(AsMapOfMultipleValues(st), key)
  }

  /** `get_first_occurrence_value`: looked up in the first-occurrence map. */
  function GetFirstOccurrenceValue(st: Store, key: string, order: seq<string>): (r: Option<string>)
    requires IsIterationOrder(order, st.entries)
    ensures r.None? <==> key !in st.entries || st.entries[key] == []
    ensures r.Some? ==> r.value == st.entries[key][0]
  {
    Get(AsMapOfFirstOccurrenceValue(st, order), key)
  }

  /** `get_last_occurrence_value`: looked up in the last-occurrence map. */
  function GetLastOccurrenceValue(st: Store, key: string, order: seq<string>): (r: Option<string>)
    requires IsIterationOrder(order, st.entries)
    ensures r.None? <==> key !in st.entries || st.entries[key] == []
    ensures r.Some? ==> r.value == Last(st.entries[key])
  {
    Get(AsMapOfLastOccurrenceValue(st, order), key)
  }

  /**
   After parsing, each getter answers `None` exactly for a key absent from
   the input; otherwise all of its values, the first one, and the last one.
   */
  lemma GettersAfterParse(st: Store, pairs: seq<Pair>, order: seq<string>, key: string)
    requires Groups(st.entries, pairs)
    requires IsIterationOrder(order, st.entries)
    ensures key in KeysOf(pairs) <==> ValuesOf(pairs, key) != []
    ensures GetMultipleValues(st, key) ==
      if key in KeysOf(pairs) then Some(ValuesOf(pairs, key)) else None
    ensures GetFirstOccurrenceValue(st, key, order) ==
      if key in KeysOf(pairs) then Some(ValuesOf(pairs, key)[0]) else None
    ensures GetLastOccurrenceValue(st, key, order) ==
      if key in KeysOf(pairs) then Some(Last(ValuesOf(pairs, key))) else None
  {
    KeysOfValues(pairs, key);
    if key in KeysOf(pairs) {
      assert st.entries[key] == ValuesOf(pairs, key);
    } else {
      assert key !in st.entries;
    }
  }
}
