/**
 The repository's own test and doc-test expectations, stated as lemmas over
 the model: the query `a=1&b=2&c=3&c=4&key_without_value&=value_without_key`
 on its own, behind `https://abc.com/?` and behind `https://abc.com/?????`.
 Decoding is the identity here, since that query holds no escapes.
 */
module SourceTests {
  import opened Common
  import opened Pairs
  import Segment
  import FormUrlencoded
  import UrlEncodedData
  import SortedOrder

  /** The decoding of a text without escapes: the text itself. */
  function Verbatim(s: string): string
  {
    s
  }

  /** `a=1&b=2&c=3&c=4&key_without_value&=value_without_key` */
  function Query(): string
  {
    FormUrlencoded.Join(QueryEntries(), '&')
  }

  /** The `&`-separated pieces of the query: `a=1`, `b=2`, `c=3`, `c=4`, `key_without_value`, `=value_without_key`. */
  function QueryEntries(): seq<string>
  {
    [Entry("a", "1"), Entry("b", "2"), Entry("c", "3"), Entry("c", "4"), "key_without_value", Entry("", "value_without_key")]
  }

  /** A piece `name=value`. */
  function Entry(name: string, value: string): string
  {
    name + "=" + value
  }

  function QueryPairs(): seq<Pair>
  {
    [("a", "1"), ("b", "2"), ("c", "3"), ("c", "4"), ("key_without_value", ""), ("", "value_without_key")]
  }

  /** The multi-value map `test_qs` expects. */
  function ExpectedMultipleValues(): map<string, seq<string>>
  {
    map["a" := ["1"], "b" := ["2"], "c" := ["3", "4"], "key_without_value" := [""], "" := ["value_without_key"]]
  }

  /** The first-occurrence map `test_qs` expects. */
  function ExpectedFirstOccurrences(): map<string, string>
  {
    map["a" := "1", "b" := "2", "c" := "3", "key_without_value" := "", "" := "value_without_key"]
  }

  /** The last-occurrence map `test_qs` expects. */
  function ExpectedLastOccurrences(): map<string, string>
  {
    map["a" := "1", "b" := "2", "c" := "4", "key_without_value" := "", "" := "value_without_key"]
  }

  lemma {:induction false} JoinAvoids(parts: seq<string>, sep: char, c: char)
    requires |parts| >= 1 && c != sep
    requires forall i :: 0 <= i < |parts| ==> c !in parts[i]
    ensures c !in FormUrlencoded.Join(parts, sep)
  {
    if |parts| > 1 {
      JoinAvoids(parts[1..], sep, c);
    }
  }

  lemma EntriesAvoid(c: char)
    requires c == '?' || c == '&'
    ensures forall i :: 0 <= i < |QueryEntries()| ==> c !in QueryEntries()[i]
  {
    var es := QueryEntries();
    assert c !in es[0] && c !in es[1] && c !in es[2];
    assert c !in es[3] && c !in es[4] && c !in es[5];
  }

  lemma QueryShape()
    ensures '?' !in Query()
    ensures Query() != [] && Query()[0] != '?'
  {
    EntriesAvoid('?');
    JoinAvoids(QueryEntries(), '&', '?');
    assert Query()[0] == QueryEntries()[0][0];
  }

  /** The query is the same with or without a URL in front of it. */
  lemma ExtractedQuery()
    ensures Segment.ExtractUrlEncodedString(Query()) == Query()
    ensures Segment.ExtractUrlEncodedString("https://abc.com/" + "?" + Query()) == Query()
    ensures Segment.ExtractUrlEncodedString("https://abc.com/" + "?????" + Query()) == Query()
  {
    QueryShape();
    UrlShape();
    Segment.ExtractAfterPrefix("https://abc.com/", "?", Query());
    Segment.ExtractAfterPrefix("https://abc.com/", "?????", Query());
  }

  /** The test's URL holds no `?` of its own, and its separators are all `?`. */
  lemma UrlShape()
    ensures '?' !in "https://abc.com/"
    ensures forall i :: 0 <= i < |"?"| ==> "?"[i] == '?'
    ensures forall i :: 0 <= i < |"?????"| ==> "?????"[i] == '?'
  {
  }

  lemma DecodeOne(name: string, value: string)
    requires '=' !in name
    ensures FormUrlencoded.DecodeEntry(Entry(name, value), Verbatim) == (name, value)
  {
    FormUrlencoded.DecodeNameValue(name, value, Verbatim);
  }

  /** An entry without `=` is all key, with an empty value. */
  lemma EntryWithoutEquals()
    ensures FormUrlencoded.DecodeEntry("key_without_value", Verbatim) == ("key_without_value", "")
  {
    assert '=' !in "key_without_value";
  }

  /** The query decodes to the six pairs the tests expect, in that order. */
  lemma ParsedQuery()
    ensures FormUrlencoded.Parse(Query(), Verbatim) == QueryPairs()
  {
    var es := QueryEntries();
    EntriesAvoid('&');
    assert forall i :: 0 <= i < |es| ==> es[i] != [];
    forall i | 0 <= i < |es| ensures FormUrlencoded.DecodeEntry(es[i], Verbatim) == QueryPairs()[i] {
      DecodeQueryEntry(i);
    }
    FormUrlencoded.ParseJoinedIs(es, Verbatim, QueryPairs());
  }

  lemma DecodeQueryEntry(i: nat)
    requires i < |QueryEntries()|
    ensures FormUrlencoded.DecodeEntry(QueryEntries()[i], Verbatim) == QueryPairs()[i]
  {
    if i == 0 {
      DecodeOne("a", "1");
    } else if i == 1 {
      DecodeOne("b", "2");
    } else if i == 2 {
      DecodeOne("c", "3");
    } else if i == 3 {
      DecodeOne("c", "4");
    } else if i == 4 {
      EntryWithoutEquals();
    } else {
      DecodeOne("", "value_without_key");
    }
  }

  /** The distinct keys of the test query. */
  lemma QueryKeys()
    ensures KeysOf(QueryPairs()) == {"a", "b", "c", "key_without_value", ""}
  {
    var ps := QueryPairs();
    assert ps[0].0 == "a" && ps[1].0 == "b" && ps[2].0 == "c" && ps[4].0 == "key_without_value" && ps[5].0 == "";
    assert forall i :: 0 <= i < |ps| ==> ps[i].0 in {"a", "b", "c", "key_without_value", ""};
  }

  lemma {:induction false} QueryValues(ps: seq<Pair>, k: string)
    requires ps == QueryPairs()
    ensures ValuesOf(ps, k) ==
      (if k == "a" then ["1"] else [])
      + (if k == "b" then ["2"] else [])
      + (if k == "c" then ["3", "4"] else [])
      + (if k == "key_without_value" then [""] else [])
      + (if k == "" then ["value_without_key"] else [])
  {
    ValuesOfSnoc(ps[..5], ps[5], k);
    assert ps[..5] == ps[..4] + [ps[4]];
    ValuesOfSnoc(ps[..4], ps[4], k);
    assert ps[..4] == ps[..3] + [ps[3]];
    ValuesOfSnoc(ps[..3], ps[3], k);
    assert ps[..3] == ps[..2] + [ps[2]];
    ValuesOfSnoc(ps[..2], ps[2], k);
    assert ps[..2] == ps[..1] + [ps[1]];
    ValuesOfSnoc(ps[..1], ps[1], k);
    assert ps[..1] == [] + [ps[0]];
    ValuesOfSnoc([], ps[0], k);
  }

  /** Each of the three inputs parses to the six expected pairs. */
  lemma InputsParse(s: string)
    requires s == Query() || s == "https://abc.com/" + "?" + Query() || s == "https://abc.com/" + "?????" + Query()
    ensures FormUrlencoded.Parse(Segment.ExtractUrlEncodedString(s), Verbatim) == QueryPairs()
  {
    ExtractedQuery();
    ParsedQuery();
  }

  lemma QueryKeyCount(entries: map<string, seq<string>>, ps: seq<Pair>)
    requires ps == QueryPairs()
    requires entries.Keys == KeysOf(ps)
    ensures |entries| == 5
  {
    QueryKeys();
    var ks := ["a", "b", "c", "key_without_value", ""];
    assert NoDup(ks);
    NoDupCardinality(ks);
    assert entries.Keys == set x | x in ks;
  }

  lemma QueryStoreSizes(st: UrlEncodedData.Store, ps: seq<Pair>, order: seq<string>)
    requires ps == QueryPairs()
    requires Groups(st.entries, ps)
    requires IsIterationOrder(order, st.entries)
    ensures |UrlEncodedData.AsMapOfMultipleValues(st)| == 5
    ensures |UrlEncodedData.AsMapOfFirstOccurrenceValue(st, order)| == 5
    ensures |UrlEncodedData.AsMapOfLastOccurrenceValue(st, order)| == 5
  {
    QueryKeyCount(st.entries, ps);
    UrlEncodedData.GroupsNonEmpty(st.entries, ps);
    UrlEncodedData.OccurrenceMapSizes(st, order);
  }

  /** A store grouping the query's pairs holds exactly the expected multi-value map. */
  lemma QueryEntriesMap(st: UrlEncodedData.Store, ps: seq<Pair>)
    requires ps == QueryPairs()
    requires Groups(st.entries, ps)
    ensures st.entries == ExpectedMultipleValues()
  {
    GroupsIs(st.entries, ps);
    QueryGroups();
  }

  /** The query's keys, each with its values, make the expected multi-value map. */
  lemma QueryGroups()
    ensures (map k | k in KeysOf(QueryPairs()) :: ValuesOf(QueryPairs(), k)) == ExpectedMultipleValues()
  {
    var ps := QueryPairs();
    var m := map k | k in KeysOf(ps) :: ValuesOf(ps, k);
    var expected := ExpectedMultipleValues();
    QueryKeys();
    assert m.Keys == expected.Keys;
    QueryValueLists();
    forall k | k in m ensures m[k] == expected[k] {
      assert k in {"a", "b", "c", "key_without_value", ""};
    }
  }

  /** The values of each key of the query, in input order. */
  lemma QueryValueLists()
    ensures ValuesOf(QueryPairs(), "a") == ["1"]
    ensures ValuesOf(QueryPairs(), "b") == ["2"]
    ensures ValuesOf(QueryPairs(), "c") == ["3", "4"]
    ensures ValuesOf(QueryPairs(), "key_without_value") == [""]
    ensures ValuesOf(QueryPairs(), "") == ["value_without_key"]
  {
    QueryValues(QueryPairs(), "a");
    QueryValues(QueryPairs(), "b");
    QueryValues(QueryPairs(), "c");
    QueryValues(QueryPairs(), "key_without_value");
    QueryValues(QueryPairs(), "");
  }

  /** On the query's store, the first-occurrence map is the expected one. */
  lemma QueryFirstMap(st: UrlEncodedData.Store, order: seq<string>)
    requires st.entries == ExpectedMultipleValues()
    requires IsIterationOrder(order, st.entries)
    ensures UrlEncodedData.AsMapOfFirstOccurrenceValue(st, order) == ExpectedFirstOccurrences()
  {
    UrlEncodedData.FirstOccurrenceMapIs(st, order);
    HeadsOfExpected();
  }

  /** On the query's store, the last-occurrence map is the expected one. */
  lemma QueryLastMap(st: UrlEncodedData.Store, order: seq<string>)
    requires st.entries == ExpectedMultipleValues()
    requires IsIterationOrder(order, st.entries)
    ensures UrlEncodedData.AsMapOfLastOccurrenceValue(st, order) == ExpectedLastOccurrences()
  {
    UrlEncodedData.LastOccurrenceMapIs(st, order);
    LastsOfExpected();
  }

  /** The heads of the expected lists are the expected first occurrences. */
  lemma HeadsOfExpected()
    ensures (map k | k in ExpectedMultipleValues() && ExpectedMultipleValues()[k] != [] :: ExpectedMultipleValues()[k][0])
            == ExpectedFirstOccurrences()
  {
  }

  /** The last elements of the expected lists are the expected last occurrences. */
  lemma LastsOfExpected()
    ensures (map k | k in ExpectedMultipleValues() && ExpectedMultipleValues()[k] != [] :: Last(ExpectedMultipleValues()[k]))
            == ExpectedLastOccurrences()
  {
  }

  lemma QueryStoreGetters(st: UrlEncodedData.Store, ps: seq<Pair>, order: seq<string>)
    requires ps == QueryPairs()
    requires Groups(st.entries, ps)
    requires IsIterationOrder(order, st.entries)
    ensures UrlEncodedData.GetMultipleValues(st, "a") == Some(["1"])
    ensures UrlEncodedData.GetMultipleValues(st, "c") == Some(["3", "4"])
    ensures UrlEncodedData.GetMultipleValues(st, "non-exist") == None
    ensures UrlEncodedData.GetFirstOccurrenceValue(st, "a", order) == Some("1")
    ensures UrlEncodedData.GetFirstOccurrenceValue(st, "c", order) == Some("3")
    ensures UrlEncodedData.GetLastOccurrenceValue(st, "a", order) == Some("1")
    ensures UrlEncodedData.GetLastOccurrenceValue(st, "c", order) == Some("4")
    ensures UrlEncodedData.GetFirstOccurrenceValue(st, "non-exist", order) == None
    ensures UrlEncodedData.GetLastOccurrenceValue(st, "non-exist", order) == None
  {
    QueryValues(ps, "a");
    QueryValues(ps, "c");
    QueryValues(ps, "non-exist");
    assert ValuesOf(ps, "a") == ["1"];
    assert ValuesOf(ps, "c") == ["3", "4"];
    assert ValuesOf(ps, "non-exist") == [];
    KeysOfValues(ps, "a");
    KeysOfValues(ps, "c");
    KeysOfValues(ps, "non-exist");
    assert st.entries["a"] == ["1"];
    assert st.entries["c"] == ["3", "4"];
  }

  /** An empty input gives an empty store: no keys, no values, an empty ledger. */
  lemma EmptyInput(st: UrlEncodedData.Store, decode: string -> string)
    requires UrlEncodedData.Represents(st, FormUrlencoded.Parse(Segment.ExtractUrlEncodedString(""), decode))
    ensures st.entries == map[] && st.originalKeysInOrder == []
    ensures UrlEncodedData.AsPairs(st, []) == []
  {
    assert FormUrlencoded.Split("", '&') == [""];
    var ps := FormUrlencoded.Parse("", decode);
    assert ps == [];
    assert KeysOf(ps) == {};
    UrlEncodedData.ParsedStoreShape(st, ps);
  }

  /** The query's pairs come key by key: both values of `c` are adjacent. */
  lemma {:induction false} QueryContiguous(ps: seq<Pair>)
    requires ps == QueryPairs()
    ensures KeysContiguous(ps)
  {
    var ks := seq(|ps|, i requires 0 <= i < |ps| => ps[i].0);
    assert ks == ["a", "b", "c", "c", "key_without_value", ""];
    RepeatsAdjacent(ps);
  }

  /**
   The test reads `as_pairs` position by position, but `as_pairs` follows the
   map's iteration order: on `b=1&a=2` a map that yields `a` first gives the
   pairs in the other order. The original-order view gives the input back.
   */
  lemma AsPairsFollowsMapOrder()
    ensures UrlEncodedData.Represents(SortedOrder.TwoKeyStore(), [("b", "1"), ("a", "2")])
    ensures IsIterationOrder(["a", "b"], SortedOrder.TwoKeyStore().entries)
    ensures UrlEncodedData.AsPairs(SortedOrder.TwoKeyStore(), ["a", "b"]) == [("a", "2"), ("b", "1")]
    ensures UrlEncodedData.AsPairsOfOriginalOrder(SortedOrder.TwoKeyStore(), ["a", "b"]) == [("b", "1"), ("a", "2")]
    ensures FormUrlencoded.Parse(SortedOrder.TwoKeyStore().dataStr, Verbatim) == [("b", "1"), ("a", "2")]
  {
    SortedOrder.TwoKeyStoreIsParsed();
    TwoKeyInputParses();
    TwoKeyMapOrder();
    TwoKeyOriginalOrder();
  }

  /**
   The two-key store is what parsing `b=1&a=2` builds: the input has no `?`,
   so it is its own data segment, and it decodes to `(b, 1)`, `(a, 2)`.
   */
  lemma TwoKeyInputParses()
    ensures Segment.ExtractUrlEncodedString(SortedOrder.TwoKeyStore().dataStr) == SortedOrder.TwoKeyStore().dataStr
    ensures FormUrlencoded.Parse(SortedOrder.TwoKeyStore().dataStr, Verbatim) == [("b", "1"), ("a", "2")]
    ensures UrlEncodedData.Represents(SortedOrder.TwoKeyStore(),
              FormUrlencoded.Parse(Segment.ExtractUrlEncodedString(SortedOrder.TwoKeyStore().dataStr), Verbatim))
  {
    TwoKeyText();
    TwoKeyParse();
    SortedOrder.TwoKeyStoreIsParsed();
  }

  /** `b=1&a=2` holds no `?` and is the pieces `b=1` and `a=2` joined by `&`. */
  lemma TwoKeyText()
    ensures '?' !in SortedOrder.TwoKeyStore().dataStr
    ensures SortedOrder.TwoKeyStore().dataStr == FormUrlencoded.Join([Entry("b", "1"), Entry("a", "2")], '&')
  {
  }

  /** The pieces `b=1` and `a=2` joined by `&` decode to `(b, 1)`, `(a, 2)`. */
  lemma TwoKeyParse()
    ensures FormUrlencoded.Parse(FormUrlencoded.Join([Entry("b", "1"), Entry("a", "2")], '&'), Verbatim) == [("b", "1"), ("a", "2")]
  {
    var es := [Entry("b", "1"), Entry("a", "2")];
    assert '&' !in es[0] && '&' !in es[1];
    DecodeOne("b", "1");
    DecodeOne("a", "2");
    FormUrlencoded.ParseJoinedIs(es, Verbatim, [("b", "1"), ("a", "2")]);
  }

  /** Walking the two-key map `a` first gives `a=2` before `b=1`. */
  lemma TwoKeyMapOrder()
    ensures IsIterationOrder(["a", "b"], SortedOrder.TwoKeyStore().entries)
    ensures UrlEncodedData.AsPairs(SortedOrder.TwoKeyStore(), ["a", "b"]) == [("a", "2"), ("b", "1")]
  {
    var st := SortedOrder.TwoKeyStore();
    var order := ["a", "b"];
    assert IsIterationOrder(order, st.entries);
    assert Flatten(st.entries, order[1..][1..]) == [];
    assert Flatten(st.entries, order[1..]) == [("b", "1")];
    assert Flatten(st.entries, order) == [("a", "2"), ("b", "1")];
  }

  /** The original-order view of the two-key store gives back the input pairs. */
  lemma TwoKeyOriginalOrder()
    requires IsIterationOrder(["a", "b"], SortedOrder.TwoKeyStore().entries)
    ensures UrlEncodedData.AsPairsOfOriginalOrder(SortedOrder.TwoKeyStore(), ["a", "b"]) == [("b", "1"), ("a", "2")]
  {
    var ps: seq<Pair> := [("b", "1"), ("a", "2")];
    SortedOrder.TwoKeyStoreIsParsed();
    assert KeysContiguous(ps);
    UrlEncodedData.OriginalOrderRoundTrip(SortedOrder.TwoKeyStore(), ps, ["a", "b"]);
  }

  /**
   The expectations of the test `test_qs` and of the getter doc-tests, for
   each of the three inputs: the multi-value map and both occurrence maps are
   exactly the expected five-key maps, the getters give `a` and `c` their
   expected values and nothing for a key that is not there, and the
   original-order view is the six expected pairs.
   */
  lemma TestQs(s: string, st: UrlEncodedData.Store, order: seq<string>)
    requires s == Query() || s == "https://abc.com/" + "?" + Query() || s == "https://abc.com/" + "?????" + Query()
    requires UrlEncodedData.Represents(st, FormUrlencoded.Parse(Segment.ExtractUrlEncodedString(s), Verbatim))
    requires IsIterationOrder(order, st.entries)
    ensures |UrlEncodedData.AsMapOfMultipleValues(st)| == 5
    ensures |UrlEncodedData.AsMapOfFirstOccurrenceValue(st, order)| == 5
    ensures |UrlEncodedData.AsMapOfLastOccurrenceValue(st, order)| == 5
    ensures UrlEncodedData.AsMapOfMultipleValues(st) == ExpectedMultipleValues()
    ensures UrlEncodedData.AsMapOfFirstOccurrenceValue(st, order) == ExpectedFirstOccurrences()
    ensures UrlEncodedData.AsMapOfLastOccurrenceValue(st, order) == ExpectedLastOccurrences()
    ensures UrlEncodedData.GetMultipleValues(st, "a") == Some(["1"])
    ensures UrlEncodedData.GetMultipleValues(st, "c") == Some(["3", "4"])
    ensures UrlEncodedData.GetMultipleValues(st, "non-exist") == None
    ensures UrlEncodedData.GetFirstOccurrenceValue(st, "a", order) == Some("1")
    ensures UrlEncodedData.GetFirstOccurrenceValue(st, "c", order) == Some("3")
    ensures UrlEncodedData.GetLastOccurrenceValue(st, "a", order) == Some("1")
    ensures UrlEncodedData.GetLastOccurrenceValue(st, "c", order) == Some("4")
    ensures UrlEncodedData.GetFirstOccurrenceValue(st, "non-exist", order) == None
    ensures UrlEncodedData.GetLastOccurrenceValue(st, "non-exist", order) == None
    ensures UrlEncodedData.AsPairsOfOriginalOrder(st, order) == QueryPairs()
  {
    InputsParse(s);
    QueryContiguous(QueryPairs());
    UrlEncodedData.OriginalOrderRoundTrip(st, QueryPairs(), order);
    QueryStoreSizes(st, QueryPairs(), order);
    QueryStoreGetters(st, QueryPairs(), order);
    QueryEntriesMap(st, QueryPairs());
    QueryFirstMap(st, order);
    QueryLastMap(st, order);
  }

  /** The crate documentation's example input, where `a` repeats around `b`. */
  function RepeatedKeyQuery(): string
  {
    "a=1&b=2&a=3"
  }

  /** The pairs the crate documentation lists for its example input. */
  function RepeatedKeyPairs(): seq<Pair>
  {
    [("a", "1"), ("b", "2"), ("a", "3")]
  }

  /** The multi-value map the crate documentation expects for its example input. */
  function RepeatedKeyMultipleValues(): map<string, seq<string>>
  {
    map["a" := ["1", "3"], "b" := ["2"]]
  }

  /** `a=1&b=2&a=3` holds no `?` and is the pieces `a=1`, `b=2`, `a=3` joined by `&`. */
  lemma RepeatedKeyText()
    ensures '?' !in RepeatedKeyQuery()
    ensures RepeatedKeyQuery() == FormUrlencoded.Join([Entry("a", "1"), Entry("b", "2"), Entry("a", "3")], '&')
  {
  }

  /** The example input is its own data segment and decodes to its three pairs. */
  lemma RepeatedKeyParse()
    ensures FormUrlencoded.Parse(Segment.ExtractUrlEncodedString(RepeatedKeyQuery()), Verbatim) == RepeatedKeyPairs()
  {
    RepeatedKeyText();
    var es := [Entry("a", "1"), Entry("b", "2"), Entry("a", "3")];
    assert '&' !in es[0] && '&' !in es[1] && '&' !in es[2];
    DecodeOne("a", "1");
    DecodeOne("b", "2");
    DecodeOne("a", "3");
    FormUrlencoded.ParseJoinedIs(es, Verbatim, RepeatedKeyPairs());
  }

  lemma {:induction false} RepeatedKeyValues(ps: seq<Pair>, k: string)
    requires ps == RepeatedKeyPairs()
    ensures ValuesOf(ps, k) ==
      (if k == "a" then ["1"] else []) + (if k == "b" then ["2"] else []) + (if k == "a" then ["3"] else [])
  {
    ValuesOfSnoc(ps[..2], ps[2], k);
    assert ps[..2] == ps[..1] + [ps[1]];
    ValuesOfSnoc(ps[..1], ps[1], k);
    assert ps[..1] == [] + [ps[0]];
    ValuesOfSnoc([], ps[0], k);
  }

  /** The example's keys, each with its values, make the expected multi-value map. */
  lemma RepeatedKeyGroups()
    ensures (map k | k in KeysOf(RepeatedKeyPairs()) :: ValuesOf(RepeatedKeyPairs(), k)) == RepeatedKeyMultipleValues()
  {
    var ps := RepeatedKeyPairs();
    var expected := RepeatedKeyMultipleValues();
    RepeatedKeyKeys();
    RepeatedKeyValues(ps, "a");
    RepeatedKeyValues(ps, "b");
    var m := map k | k in KeysOf(ps) :: ValuesOf(ps, k);
    assert m.Keys == expected.Keys;
    forall k | k in m ensures m[k] == expected[k] {
      assert k in {"a", "b"};
    }
  }

  lemma RepeatedKeyKeys()
    ensures KeysOf(RepeatedKeyPairs()) == {"a", "b"}
  {
    var ps := RepeatedKeyPairs();
    assert ps[0].0 == "a" && ps[1].0 == "b";
    assert forall i :: 0 <= i < |ps| ==> ps[i].0 in {"a", "b"};
  }

  /** The only ledger listing the example's keys in first-seen order is `a`, then `b`. */
  lemma RepeatedKeyLedger(ks: seq<string>)
    requires InFirstSeenOrder(ks, RepeatedKeyPairs())
    ensures ks == ["a", "b"]
  {
    var ps := RepeatedKeyPairs();
    RepeatedKeyKeys();
    NoDupCardinality(ks);
    assert (set x | x in ks) == {"a", "b"};
    var fa, fb := FirstIndex(ps, "a"), FirstIndex(ps, "b");
    assert ps[0].0 == "a" && ps[1].0 == "b" && ps[2].0 == "a";
    assert fa == 0;
    assert fb == 1;
  }

  /** The heads and last elements of the example's value lists. */
  lemma EndsOfRepeated()
    ensures (map k | k in RepeatedKeyMultipleValues() && RepeatedKeyMultipleValues()[k] != [] :: RepeatedKeyMultipleValues()[k][0])
            == map["a" := "1", "b" := "2"]
    ensures (map k | k in RepeatedKeyMultipleValues() && RepeatedKeyMultipleValues()[k] != [] :: Last(RepeatedKeyMultipleValues()[k]))
            == map["a" := "3", "b" := "2"]
  {
  }

  /** A store built from the example input groups its three pairs under the ledger `a`, `b`. */
  lemma RepeatedKeyStore(st: UrlEncodedData.Store)
    requires UrlEncodedData.Represents(st, FormUrlencoded.Parse(Segment.ExtractUrlEncodedString(RepeatedKeyQuery()), Verbatim))
    ensures UrlEncodedData.Represents(st, RepeatedKeyPairs())
    ensures st.entries == RepeatedKeyMultipleValues()
    ensures st.originalKeysInOrder == ["a", "b"]
  {
    RepeatedKeyParse();
    GroupsIs(st.entries, RepeatedKeyPairs());
    RepeatedKeyGroups();
    RepeatedKeyLedger(st.originalKeysInOrder);
  }

  /** On the example's store, the three maps and the getters give what the documentation expects. */
  lemma RepeatedKeyMaps(st: UrlEncodedData.Store, order: seq<string>)
    requires st.entries == RepeatedKeyMultipleValues()
    requires IsIterationOrder(order, st.entries)
    ensures UrlEncodedData.AsMapOfMultipleValues(st) == map["a" := ["1", "3"], "b" := ["2"]]
    ensures UrlEncodedData.AsMapOfFirstOccurrenceValue(st, order) == map["a" := "1", "b" := "2"]
    ensures UrlEncodedData.AsMapOfLastOccurrenceValue(st, order) == map["a" := "3", "b" := "2"]
    ensures UrlEncodedData.GetMultipleValues(st, "a") == Some(["1", "3"])
    ensures UrlEncodedData.GetFirstOccurrenceValue(st, "a", order) == Some("1")
    ensures UrlEncodedData.GetLastOccurrenceValue(st, "a", order) == Some("3")
    ensures UrlEncodedData.GetLastOccurrenceValue(st, "not-existed-key", order) == None
  {
    UrlEncodedData.FirstOccurrenceMapIs(st, order);
    UrlEncodedData.LastOccurrenceMapIs(st, order);
    EndsOfRepeated();
  }

  /** The original-order view of the example's store lists both `a` pairs before `b=2`. */
  lemma RepeatedKeyOriginalOrder(st: UrlEncodedData.Store, order: seq<string>)
    requires UrlEncodedData.Represents(st, RepeatedKeyPairs())
    requires st.entries == RepeatedKeyMultipleValues()
    requires st.originalKeysInOrder == ["a", "b"]
    requires IsIterationOrder(order, st.entries)
    ensures UrlEncodedData.AsPairsOfOriginalOrder(st, order) == [("a", "1"), ("a", "3"), ("b", "2")]
  {
    UrlEncodedData.OriginalOrderAfterParse(st, RepeatedKeyPairs(), order);
    RepeatedKeyFlatten();
  }

  /** Walking the example's multi-value map `a` first gives both `a` pairs, then `b=2`. */
  lemma RepeatedKeyFlatten()
    ensures Flatten(RepeatedKeyMultipleValues(), ["a", "b"]) == [("a", "1"), ("a", "3"), ("b", "2")]
  {
    var m := RepeatedKeyMultipleValues();
    var ks := ["a", "b"];
    assert Flatten(m, ks[1..][1..]) == [];
    assert Flatten(m, ks[1..]) == [("b", "2")];
    assert Expand("a", ["1", "3"]) == [("a", "1"), ("a", "3")];
  }

  /**
   The crate documentation's example `a=1&b=2&a=3`: the three maps and the
   getters give what it expects, and a key that is not there gives nothing.
   The original-order view lists `a=3` before `b=2`, so it is not the input:
   the input's `a` pairs are not adjacent.
   */
  lemma DocExampleRepeatedKey(st: UrlEncodedData.Store, order: seq<string>)
    requires UrlEncodedData.Represents(st, FormUrlencoded.Parse(Segment.ExtractUrlEncodedString(RepeatedKeyQuery()), Verbatim))
    requires IsIterationOrder(order, st.entries)
    ensures UrlEncodedData.AsMapOfMultipleValues(st) == map["a" := ["1", "3"], "b" := ["2"]]
    ensures UrlEncodedData.AsMapOfFirstOccurrenceValue(st, order) == map["a" := "1", "b" := "2"]
    ensures UrlEncodedData.AsMapOfLastOccurrenceValue(st, order) == map["a" := "3", "b" := "2"]
    ensures UrlEncodedData.GetMultipleValues(st, "a") == Some(["1", "3"])
    ensures UrlEncodedData.GetFirstOccurrenceValue(st, "a", order) == Some("1")
    ensures UrlEncodedData.GetLastOccurrenceValue(st, "a", order) == Some("3")
    ensures UrlEncodedData.GetLastOccurrenceValue(st, "not-existed-key", order) == None
    ensures UrlEncodedData.AsPairsOfOriginalOrder(st, order) == [("a", "1"), ("a", "3"), ("b", "2")]
    ensures UrlEncodedData.AsPairsOfOriginalOrder(st, order) != RepeatedKeyPairs()
    ensures !KeysContiguous(RepeatedKeyPairs())
  {
    RepeatedKeyStore(st);
    RepeatedKeyMaps(st, order);
    RepeatedKeyOriginalOrder(st, order);
    assert RepeatedKeyPairs()[1] == ("b", "2");
    UrlEncodedData.OriginalOrderIsInputIff(st, RepeatedKeyPairs(), order);
  }
}
