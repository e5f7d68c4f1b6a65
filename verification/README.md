# url_encoded_data in Dafny

This project models the parsing core of the Rust crate `url_encoded_data`, in `src/lib.rs`:

- `extract_url_encoded_string` finds the data segment of a URL or query string.
- `UrlEncodedData::parse_from_data_str` drains the pairs into a multi-valued map plus a ledger of keys in first-seen order.
- Read views over that store:
  - `as_pairs`, `as_pairs_of_original_order` and `as_pairs_of_sorted_order`;
  - the multi-value, first-occurrence and last-occurrence maps;
  - the three getters built on those maps.

Modules:

- `Common` (`common.dfy`): `Option`, the `Pair` type, `NoDup`, map lookup and a few sequence facts.
- `Segment` (`segment.dfy`): `extract_url_encoded_string`. It finds the first `?`, keeps everything after it and trims any further leading `?`.
- `FormUrlencoded` (`form_urlencoded.dfy`): the splitting done by the `url` crate's `form_urlencoded::parse`, which the store calls at `src/lib.rs:540`. It follows section 5.1 of the WHATWG URL Standard (application/x-www-form-urlencoded parsing):
  - split on `&` and skip empty pieces;
  - split each piece at its first `=`; a piece without `=` has an empty value;
  - percent-decode both halves.

  Percent-decoding itself (`%XX`, `+` to space, UTF-8 replacement) is the function parameter `decode`. The `url` crate is not part of this model beyond this behaviour.
- `Pairs` (`pairs.dfy`): reference definitions over a pair sequence. They relate every view back to the decoded input.
  - `KeysOf`: the set of keys.
  - `ValuesOf`: one key's values in input order.
  - `FirstIndex`: a key's first position.
  - `InFirstSeenOrder`: a key list in order of first appearance.
  - `Groups`: a map holding each key's values.
  - `Flatten`: walks a key order and emits each key's values.
  - `KeysContiguous`: each key's pairs are adjacent.
- `UrlEncodedData` (`store.dfy`): the store `Store(dataStr, originalKeysInOrder, entries)`, the construction loop and every read view.
- `SortedOrder` (`sorted_order.dfy`): `as_pairs_of_sorted_order`, as written and corrected (see Findings).
- `SourceTests` (`source_tests.dfy`): the crate's `test_qs` test and getter doc-tests, stated as lemmas on the query `a=1&b=2&c=3&c=4&key_without_value&=value_without_key`.

`HashMap` iteration order is unspecified in Rust. Each view that iterates the map therefore takes a parameter `order: seq<string>`, constrained by `IsIterationOrder(order, entries)`: every key exactly once, nothing else. All properties hold for every such order. The left-over phase of `as_pairs_of_original_order` walks the clone after the ledger's keys have been removed. It is modelled as the same iteration order restricted to the remaining keys.

Notes on behaviour:

- The store keeps only the extracted data segment, with no URL prefix. `src/lib.rs` defines no mutation or re-serialisation methods, although the crate's `examples/mutating_example.rs` calls `set`, `set_one`, `delete` and `to_string_of_original_order` (examples/mutating_example.rs:7-36).
- Empty `&` pieces are skipped, as the WHATWG algorithm the `url` crate follows does.
- The original-order view groups all of a key's values at that key's first position. So it reproduces the input exactly when, and only when, each key's pairs are already adjacent (`UrlEncodedData.OriginalOrderRoundTrip` for one direction, `UrlEncodedData.OriginalOrderRoundTripOnlyIf` for the other, `UrlEncodedData.OriginalOrderIsInputIff` for both). For `a=1&b=2&a=3` it gives `a=1, a=3, b=2` (`SourceTests.DocExampleRepeatedKey`).
- Three examples in the crate's doc comments disagree with the code. The model follows the code in each case:
  - `src/lib.rs:972` gives `{"a" : "b"}` as the last-occurrence map of `a=b&a=c`. The code keeps the last value, `c` (`UrlEncodedData.LastOccurrences`).
  - `src/lib.rs:851` gives `"": ["e"]` for the piece `e`. The code splits a piece without `=` into key `e` and an empty value (`FormUrlencoded.SplitNameValue`), which the test at `src/lib.rs:1153` also expects.
  - `src/lib.rs:69` lists `["c", "3"]` among the pairs of `a=1&b=2&a=3`. The code gives `a`, `3` (`SourceTests.DocExampleRepeatedKey`).

## Model

| member | source | states |
|---|---|---|
| Segment.Find | src/lib.rs:276 | returns the position of the first occurrence of the character, with no earlier occurrence; None exactly when the character is absent |
| Segment.TrimStart | src/lib.rs:280 | the result is a suffix of the input, does not start with the trimmed character, and everything removed was that character |
| Segment.ExtractUrlEncodedString | src/lib.rs:275-284 | without `?` the input comes back unchanged; with one, the result is the tail after a first `?` and a run of `?` only, and does not itself start with `?` |
| Segment.ExtractAfterPrefix | src/lib.rs:255-284 | for any prefix free of `?`, any non-empty run of `?` and any query not starting with `?`, the extracted segment is exactly that query (the documented `http://abc.com/?` examples) |
| Segment.TrimMarks | src/lib.rs:280 | trimming leading `?` from a run of `?` followed by a query not starting with `?` leaves exactly the query |
| FormUrlencoded.Split | src/lib.rs:540 | splitting on a separator yields at least one piece and no piece contains the separator |
| FormUrlencoded.JoinSplit | src/lib.rs:540 | joining the pieces with the separator gives back the original text, so the split loses nothing |
| FormUrlencoded.SplitJoin | src/lib.rs:540 | splitting pieces that were joined by a separator they do not contain gives back those pieces |
| FormUrlencoded.FindAfterPiece | src/lib.rs:540 | in a piece free of the separator followed by the separator, the first separator sits right after the piece |
| FormUrlencoded.SplitNameValue | src/lib.rs:37-55 | the name never contains `=`; with `=` present, name, `=` and value rebuild the entry; without it, the whole entry is the name and the value is empty (`key_without_value`) |
| FormUrlencoded.DecodeEntry | src/lib.rs:540 | an entry without `=` decodes to its whole text as the name and the decoding of the empty string as the value |
| FormUrlencoded.DecodeNameValue | src/lib.rs:540 | an entry `name=value` whose name has no `=` decodes to the decoded name and the decoded value; later `=` stay in the value |
| FormUrlencoded.ParseEntries | src/lib.rs:540 | never more pairs than pieces; only empty pieces give no pairs; only non-empty pieces give one decoded pair each, in order |
| FormUrlencoded.Parse | src/lib.rs:540 | the empty input gives no pairs; an input without `&` is a single entry and gives exactly its decoded pair |
| FormUrlencoded.ParseJoined | src/lib.rs:540 | parsing non-empty `&`-free entries joined by `&` yields exactly one decoded pair per entry, in order |
| FormUrlencoded.ParseJoinedIs | src/lib.rs:540 | the same, stated against an expected pair list |
| FormUrlencoded.EmptyPiecesSkipped | src/lib.rs:540 | an empty piece between separators (`a=1&&b=2`) contributes nothing to the parsed pairs |
| Pairs.FirstIndex | src/lib.rs:546-548 | the position of a key's first pair: it holds the key and no earlier pair does |
| Pairs.FirstSeenStep | src/lib.rs:546-548 | appending a key to the ledger only when it is not yet there keeps the ledger in first-seen order of the pairs consumed so far |
| Pairs.KeysOfValues | src/lib.rs:545 | a key occurs in the pairs exactly when its value list is non-empty |
| Pairs.ValuesOfFlatten | src/lib.rs:604-607 | walking a duplicate-free key order yields, for each key, exactly that key's list when visited and present, otherwise nothing |
| Pairs.SameGroupsSamePairs | src/lib.rs:602-610 | two pair sequences with the same values per key are permutations of each other and have the same length |
| Pairs.FlattenFirstSeen | src/lib.rs:657-663 | when each key's pairs are adjacent, walking the keys in first-seen order and emitting each key's values rebuilds the pairs exactly |
| Pairs.FlattenContiguous | src/lib.rs:657-663 | walking a duplicate-free key order emits each key's pairs side by side, whatever the map holds |
| UrlEncodedData.FromPairs | src/lib.rs:542-551 | the construction loop yields a map holding exactly the input's keys, each with all its values in input order, and a ledger listing each key once in first-seen order |
| UrlEncodedData.AbsorbStep | src/lib.rs:545 | pushing a value onto its key's list (created empty when missing) keeps the map equal to the per-key values of the pairs consumed so far |
| UrlEncodedData.ParseFromDataStr | src/lib.rs:538-552 | the stored data string is the extracted segment, and the map and ledger represent the pairs parsed from it |
| UrlEncodedData.ParsedStoreShape | src/lib.rs:544-548 | after parsing, the ledger has no duplicates and the same keys as the map, every list is non-empty, and the map size equals the number of distinct keys |
| UrlEncodedData.MultipleValuesAfterParse | src/lib.rs:852-856 | the multi-value map has a key exactly when some pair has it, holds that key's values in input order, and has as many entries as the ledger |
| UrlEncodedData.AsPairs | src/lib.rs:602-610 | for every key, the pairs carry exactly that key's stored values in list order, whatever the map's iteration order |
| UrlEncodedData.AsPairsAfterParse | src/lib.rs:602-610 | after parsing, `as_pairs` has each key's values in input order, is a permutation of the decoded pairs and has the same count |
| UrlEncodedData.ReplayValues | src/lib.rs:657-663 | `ReplayLedger`, the first loop of `as_pairs_of_original_order`, emits for every key exactly its stored values when the key is on the ledger and in the clone, and nothing otherwise |
| UrlEncodedData.ReplayLeftover | src/lib.rs:656-663 | what `ReplayLedger` leaves in the clone after `clone.remove` is exactly the entries whose keys are not on the ledger, with their values unchanged |
| UrlEncodedData.ReplayIsFlatten | src/lib.rs:657-663 | with a duplicate-free ledger, the ledger phase emits the same as walking the ledger over the map |
| UrlEncodedData.FlattenSkipsUnvisited | src/lib.rs:658 | removing a key the walk does not visit does not change what the walk emits |
| UrlEncodedData.AsPairsOfOriginalOrder | src/lib.rs:654-672 | for every key, the result carries exactly that key's stored values in list order |
| UrlEncodedData.OriginalOrderAfterParse | src/lib.rs:654-672 | after parsing, nothing is left over for the second phase; the view is the ledger walk; it is a permutation of the decoded pairs and of `as_pairs` |
| UrlEncodedData.OriginalOrderRoundTrip | src/lib.rs:654-672 | after parsing input whose keys are each adjacent, the original-order view equals the decoded pairs, for every iteration order |
| UrlEncodedData.OriginalOrderRoundTripOnlyIf | src/lib.rs:654-672 | after parsing, if the original-order view equals the decoded pairs, then each key's pairs in the input are adjacent |
| UrlEncodedData.OriginalOrderIsInputIff | src/lib.rs:654-672 | after parsing, for every iteration order, the original-order view equals the decoded pairs if and only if each key's pairs in the input are adjacent |
| UrlEncodedData.FirstOccurrences | src/lib.rs:922-925 | inserting only when absent keeps, for every key present in the pairs, its first value |
| UrlEncodedData.LastOccurrences | src/lib.rs:976-979 | inserting with overwrite keeps, for every key present in the pairs, its last value |
| UrlEncodedData.AsMapOfFirstOccurrenceValue | src/lib.rs:919-927 | a key is present exactly when its stored list is non-empty, mapped to the list's first element |
| UrlEncodedData.AsMapOfLastOccurrenceValue | src/lib.rs:973-981 | a key is present exactly when its stored list is non-empty, mapped to the list's last element |
| UrlEncodedData.FirstOccurrenceMapIs | src/lib.rs:919-927 | whatever the iteration order, the first-occurrence map is the map from each key with a non-empty list to that list's first element |
| UrlEncodedData.LastOccurrenceMapIs | src/lib.rs:973-981 | whatever the iteration order, the last-occurrence map is the map from each key with a non-empty list to that list's last element |
| UrlEncodedData.FirstOccurrenceAfterParse | src/lib.rs:919-927 | after parsing, the first-occurrence map has exactly the input's keys, each mapped to its first value in the input |
| UrlEncodedData.LastOccurrenceAfterParse | src/lib.rs:973-981 | after parsing, the last-occurrence map has exactly the input's keys, each mapped to its last value in the input |
| UrlEncodedData.OccurrenceMapSizes | src/lib.rs:1177-1178 | when every stored list is non-empty, both occurrence maps are as large as the multi-value map |
| UrlEncodedData.GroupsNonEmpty | src/lib.rs:545 | a map built from pairs holds no empty value list |
| UrlEncodedData.GetFirstOccurrenceValue | src/lib.rs:1053-1057 | None exactly when the key is absent or its list is empty; otherwise Some of the list's first element |
| UrlEncodedData.GetLastOccurrenceValue | src/lib.rs:1088-1092 | None exactly when the key is absent or its list is empty; otherwise Some of the list's last element |
| UrlEncodedData.GettersAfterParse | src/lib.rs:1012-1092 | after parsing, each getter returns None exactly when the key never occurs in the input; otherwise all values in input order, the first, or the last |
| SortedOrder.InsertSorted | src/lib.rs:720 | inserting a new key into a strictly ascending list keeps it strictly ascending and adds exactly that key |
| SortedOrder.SortKeys | src/lib.rs:719-720 | the sorted key list is strictly ascending and a permutation of the keys |
| SortedOrder.LessIsLexBelow | src/lib.rs:720 | `Less`, the `str` order `sort_unstable` uses, holds exactly when the first string is a proper prefix of the second or they first differ at a smaller character |
| SortedOrder.LessIrreflexive | src/lib.rs:720 | no string is below itself |
| SortedOrder.LessTransitive | src/lib.rs:720 | the string order used by the sort is transitive |
| SortedOrder.LessTotal | src/lib.rs:720 | any two different strings are ordered one way or the other |
| SortedOrder.FlattenAscending | src/lib.rs:722-726 | walking a strictly ascending key order emits pairs whose keys never descend |
| SortedOrder.AsPairsOfSortedOrderAsWritten | src/lib.rs:716-728 | as written: for every key the result carries that key's stored values, but in the map's own order |
| SortedOrder.AsWrittenNotSorted | src/lib.rs:716-728 | for a store representing the pairs `(b, 1)`, `(a, 2)` (what `b=1&a=2` parses to, by `SourceTests.TwoKeyInputParses`), a map that yields `b` first makes the as-written view emit `b` before `a`, so its keys are not ascending |
| SortedOrder.AsPairsOfSortedOrder | src/lib.rs:716-728 | corrected: keys never descend, and each key carries exactly its stored values in list order |
| SortedOrder.SortedUnique | src/lib.rs:719-720 | two strictly ascending lists with the same elements are equal |
| SortedOrder.SortedOrderIsDeterministic | src/lib.rs:716-728 | the corrected view does not depend on the map's iteration order |
| SourceTests.ExtractedQuery | src/lib.rs:1120-1125 | the test query on its own, behind `https://abc.com/?` and behind `https://abc.com/?????` all extract to the query |
| SourceTests.EntryWithoutEquals | src/lib.rs:1138 | the piece `key_without_value` decodes to that key with an empty value |
| SourceTests.ParsedQuery | src/lib.rs:1133-1140 | the test query parses to the six expected pairs in order, including `("", "value_without_key")` |
| SourceTests.QueryStoreGetters | src/lib.rs:1006-1084 | the getter doc-tests: `a` gives `1` and `c` gives `3` then `4` as multiple values; the first occurrence is `1` for `a` and `3` for `c`; the last is `1` for `a` and `4` for `c`; `non-exist` gives None from all three getters |
| SourceTests.QueryEntriesMap | src/lib.rs:1149-1166 | the store of the test query holds exactly the expected multi-value map: `a`→`1`, `b`→`2`, `c`→`3`,`4`, `key_without_value`→empty, empty key→`value_without_key` |
| SourceTests.QueryFirstMap | src/lib.rs:1169-1192 | on that store the first-occurrence map is exactly the expected five-key map, with `c`→`3` |
| SourceTests.QueryLastMap | src/lib.rs:1195-1212 | on that store the last-occurrence map is exactly the expected five-key map, with `c`→`4` |
| SourceTests.EmptyInput | src/lib.rs:538-552 | an empty input yields an empty map and ledger, and `as_pairs` yields nothing |
| SourceTests.AsPairsFollowsMapOrder | src/lib.rs:1142-1146 | `b=1&a=2` parses to `(b, 1)`, `(a, 2)` and its store represents them; a map that yields `a` first makes `as_pairs` differ from the input order, while the original-order view returns the input |
| SourceTests.TwoKeyInputParses | src/lib.rs:538-552 | the input `b=1&a=2` is its own data segment, decodes to `(b, 1)`, `(a, 2)`, and the two-key store represents exactly those pairs |
| SourceTests.TestQs | src/lib.rs:1118-1214 | for each of the three test inputs: the multi-value, first-occurrence and last-occurrence maps equal the test's five-key expected maps (so each has five entries); the getters give the doc-test values for `a`, `c` and `non-exist`; the original-order view equals the six expected pairs |
| SourceTests.DocExampleRepeatedKey | src/lib.rs:66-127 | the crate documentation's example `a=1&b=2&a=3`: the multi-value map is `a`→`1`,`3` and `b`→`2`; the first-occurrence map is `a`→`1`, `b`→`2`; the last-occurrence map is `a`→`3`, `b`→`2`; the getters give `1`,`3`, then `1`, then `3` for `a` and None for `not-existed-key`; the original-order view is `a=1, a=3, b=2`, which is not the input, and the input's `a` pairs are not adjacent |

## Left out

- `stringify` (src/lib.rs:313-319) and the `UrlEncodedDataPairScanner` lazy iterator (src/lib.rs:323-438): outside the store. The scanner yields the same pairs that `FormUrlencoded.Parse` models.
- `iter` (src/lib.rs:732) and `as_string_pairs` (src/lib.rs:798): they return the same sequence as `as_pairs`, only in a different Rust type.
- The `Display` and `From<&str>` impls: formatting for printing, and a plain alias of `parse_from_data_str`.
- Percent-decoding and UTF-8 decoding: the `decode` parameter stands for it. Its escape rules and lossy UTF-8 replacement are not modelled.
- Byte versus character positions: `?`, `&` and `=` are ASCII, so splitting on `seq<char>` puts every cut where the byte-level code does.
- `Cow` borrowing, lifetimes, and the `std::ptr::eq` address comparisons in the doc examples (src/lib.rs:205-210 and src/lib.rs:907-912): they concern memory, not values.
- `HashMap` hashing and its concrete iteration order: an arbitrary order parameter stands for it.
- A URL prefix field, a mutation API and re-serialisation back to a string: `src/lib.rs` contains none of these, so there is nothing to model. `examples/mutating_example.rs` calls such methods (`set`, `set_one`, `delete`, `to_string_of_original_order`); they are not in the modelled source.
- `examples/*.rs`: demonstration programs only.
- UrlEncodedData.ReplayLedger: it carries no contract of its own. Its behaviour is stated by `UrlEncodedData.ReplayValues`, `UrlEncodedData.ReplayLeftover` and `UrlEncodedData.ReplayIsFlatten`.
- SortedOrder.Less: it carries no contract of its own. `SortedOrder.LessIsLexBelow` proves it equal to the lexicographic order `SortedOrder.LexBelow`, and `LessIrreflexive`, `LessTransitive` and `LessTotal` make it a strict total order.
- UrlEncodedData.GetMultipleValues and UrlEncodedData.AsMapOfMultipleValues: they carry no contract of their own. Their behaviour is stated by `UrlEncodedData.GettersAfterParse` and `UrlEncodedData.MultipleValuesAfterParse`.

## Findings

| source | as written | input that shows it | evidently intended | confidence | as-written member | corrected member |
|---|---|---|---|---|---|---|
| src/lib.rs:716-728 | `as_pairs_of_sorted_order` sorts the keys into a local list, then iterates the map itself, so the sorted list is never used and the output follows hash order | `b=1&a=2` with a map that iterates `b` first gives `b=1, a=2` | pairs grouped by key with keys ascending, as the method name says | high, not executed | SortedOrder.AsWrittenNotSorted | SortedOrder.AsPairsOfSortedOrder |
| src/lib.rs:1142-1146 | the test `test_qs` and the `as_pairs` doc example (src/lib.rs:585-589) compare `as_pairs` position by position with the input order, but `as_pairs` iterates the `HashMap`, whose order is unspecified | `b=1&a=2` with a map that iterates `a` first gives `a=2, b=1` | pairs in input order, which the original-order view gives when each key's pairs are adjacent, as in the test query | medium, not executed | SourceTests.AsPairsFollowsMapOrder | UrlEncodedData.OriginalOrderRoundTrip |
