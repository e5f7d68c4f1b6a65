/**
 The sorted-order view `as_pairs_of_sorted_order`. As written it sorts the
 map's keys and then walks the map in its own iteration order, so the sorted
 list is never used. `AsPairsOfSortedOrderAsWritten` models that code;
 `AsPairsOfSortedOrder` is the evidently intended view, walking the keys in
 ascending order.
 */
module SortedOrder {
  import opened Common
  import opened Pairs
  import UrlEncodedData

  /**
   Strict lexicographic order on strings, character by character. Rust orders
   `str` by its UTF-8 bytes, which agrees with ordering by code point.
   */
  predicate Less(a: string, b: string)
  {
    |b| > 0 && (|a| == 0 || a[0] < b[0] || (a[0] == b[0] && Less(a[1..], b[1..])))
  }

  /**
   Lexicographic order stated directly: `a` is a proper prefix of `b`, or the
   two first differ at a position where `a` has the smaller character.
   */
  ghost predicate LexBelow(a: string, b: string)
  {
    || (|a| < |b| && a == b[..|a|])
    || exists i :: 0 <= i < |a| && i < |b| && a[..i] == b[..i] && a[i] < b[i]
  }

  /** `Less` is exactly the lexicographic order. */
  lemma {:induction false} LessIsLexBelow(a: string, b: string)
    ensures Less(a, b) <==> LexBelow(a, b)
  {
    if |a| > 0 && |b| > 0 {
      LessIsLexBelow(a[1..], b[1..]);
      LexBelowStep(a, b);
    }
  }

  /** For non-empty strings, the lexicographic order is decided by the heads, then by the tails. */
  lemma LexBelowStep(a: string, b: string)
    requires |a| > 0 && |b| > 0
    ensures LexBelow(a, b) <==> a[0] < b[0] || (a[0] == b[0] && LexBelow(a[1..], b[1..]))
  {
    if LexBelow(a, b) && !(a[0] < b[0]) {
      LexBelowTail(a, b);
    }
    if a[0] < b[0] {
      assert a[..0] == b[..0];
    }
    if a[0] == b[0] && LexBelow(a[1..], b[1..]) {
      LexBelowCons(a, b);
    }
  }

  /** Strings lexicographically ordered but with equal heads are ordered by their tails. */
  lemma LexBelowTail(a: string, b: string)
    requires |a| > 0 && |b| > 0 && LexBelow(a, b) && !(a[0] < b[0])
    ensures a[0] == b[0] && LexBelow(a[1..], b[1..])
  {
    if |a| < |b| && a == b[..|a|] {
      assert a[0] == b[0];
      assert a[1..] == b[1..][..|a[1..]|];
    } else {
      var i :| 0 <= i < |a| && i < |b| && a[..i] == b[..i] && a[i] < b[i];
      assert i != 0;
      assert a[0] == a[..i][0] == b[..i][0] == b[0];
      assert a[1..][..i - 1] == a[..i][1..] == b[..i][1..] == b[1..][..i - 1];
      assert a[1..][i - 1] < b[1..][i - 1];
    }
  }

  /** Equal heads followed by lexicographically ordered tails give ordered strings. */
  lemma LexBelowCons(a: string, b: string)
    requires |a| > 0 && |b| > 0 && a[0] == b[0] && LexBelow(a[1..], b[1..])
    ensures LexBelow(a, b)
  {
    if |a[1..]| < |b[1..]| && a[1..] == b[1..][..|a[1..]|] {
      assert a == [a[0]] + a[1..] == [b[0]] + b[1..][..|a| - 1] == b[..|a|];
    } else {
      var j :| 0 <= j < |a[1..]| && j < |b[1..]| && a[1..][..j] == b[1..][..j] && a[1..][j] < b[1..][j];
      assert a[..j + 1] == [a[0]] + a[1..][..j] == [b[0]] + b[1..][..j] == b[..j + 1];
      assert a[j + 1] < b[j + 1];
    }
  }

  lemma {:induction false} LessIrreflexive(a: string)
    ensures !Less(a, a)
  {
    if |a| > 0 {
      LessIrreflexive(a[1..]);
    }
  }

  lemma {:induction false} LessTransitive(a: string, b: string, c: string)
    requires Less(a, b) && Less(b, c)
    ensures Less(a, c)
  {
    if |a| > 0 && a[0] == b[0] && b[0] == c[0] {
      LessTransitive(a[1..], b[1..], c[1..]);
    }
  }

  lemma {:induction false} LessTotal(a: string, b: string)
    requires a != b
    ensures Less(a, b) || Less(b, a)
  {
    if |a| > 0 && |b| > 0 && a[0] == b[0] {
      assert a == [a[0]] + a[1..] && b == [b[0]] + b[1..];
      LessTotal(a[1..], b[1..]);
    }
  }

  /** Ascending without repeats. */
  predicate StrictlySorted(ks: seq<string>)
  {
    forall i, j :: 0 <= i < j < |ks| ==> Less(ks[i], ks[j])
  }

  /** The keys of consecutive groups never decrease. */
  predicate KeysAscending(ps: seq<Pair>)
  {
    forall i, j :: 0 <= i < j < |ps| ==> ps[i].0 == ps[j].0 || Less(ps[i].0, ps[j].0)
  }

  /** `x` put in its place in an ascending list that does not hold it. */
  function InsertSorted(x: string, ks: seq<string>): (r: seq<string>)
    requires StrictlySorted(ks) && x !in ks
    ensures StrictlySorted(r)
    ensures multiset(r) == multiset(ks) + multiset{x}
  {
    if |ks| == 0 then [x]
    else if Less(x, ks[0]) then
      SortedPrepend(x, ks);
      [x] + ks
    else
      LessTotal(x, ks[0]);
      SortedTail(ks);
      var rest := InsertSorted(x, ks[1..]);
      SortedCons(ks, x, rest);
      [ks[0]] + rest
  }

  lemma SortedTail(ks: seq<string>)
    requires |ks| > 0 && StrictlySorted(ks)
    ensures StrictlySorted(ks[1..])
  {
    forall i, j | 0 <= i < j < |ks[1..]| ensures Less(ks[1..][i], ks[1..][j]) {
      assert ks[1..][i] == ks[i + 1] && ks[1..][j] == ks[j + 1];
    }
  }

  /** A key below the head of an ascending list may go in front of it. */
  lemma SortedPrepend(x: string, ks: seq<string>)
    requires |ks| > 0 && StrictlySorted(ks) && Less(x, ks[0])
    ensures StrictlySorted([x] + ks)
  {
    forall j | 0 < j < |ks| ensures Less(x, ks[j]) {
      LessTransitive(x, ks[0], ks[j]);
    }
  }

  /** The head of an ascending list stays in front of the tail with a larger key inserted. */
  lemma SortedCons(ks: seq<string>, x: string, rest: seq<string>)
    requires |ks| > 0 && StrictlySorted(ks) && Less(ks[0], x)
    requires StrictlySorted(rest) && multiset(rest) == multiset(ks[1..]) + multiset{x}
    ensures StrictlySorted([ks[0]] + rest)
    ensures multiset([ks[0]] + rest) == multiset(ks) + multiset{x}
  {
    forall j | 0 <= j < |rest| ensures Less(ks[0], rest[j]) {
      assert rest[j] in multiset(rest);
      if rest[j] != x {
        assert rest[j] in multiset(ks[1..]);
        var t :| 0 <= t < |ks[1..]| && ks[1..][t] == rest[j];
        assert ks[t + 1] == rest[j];
      }
    }
    assert ks == [ks[0]] + ks[1..];
  }

  /** Insertion sort of a duplicate-free key list. */
  function SortKeys(ks: seq<string>): (r: seq<string>)
    requires NoDup(ks)
    ensures StrictlySorted(r)
    ensures multiset(r) == multiset(ks)
  {
    if |ks| == 0 then []
    else
      NoDupTail(ks);
      var rest := SortKeys(ks[1..]);
      assert ks[0] !in rest by {
        assert ks[0] !in multiset(ks[1..]);
      }
      assert ks == [ks[0]] + ks[1..];
      InsertSorted(ks[0], rest)
  }

  /** Flattening a map along ascending keys yields pairs in ascending key order. */
  lemma {:induction false} FlattenAscending(m: map<string, seq<string>>, order: seq<string>)
    requires StrictlySorted(order)
    ensures KeysAscending(Flatten(m, order))
  {
    if |order| > 0 {
      var head := if order[0] in m then Expand(order[0], m[order[0]]) else [];
      var tail := Flatten(m, order[1..]);
      FlattenAscending(m, order[1..]);
      FlattenKeys(m, order[1..]);
      var r := Flatten(m, order);
      assert r == head + tail;
      forall i, j | 0 <= i < j < |r| ensures r[i].0 == r[j].0 || Less(r[i].0, r[j].0) {
        if j < |head| {
          assert r[i] == head[i] && r[j] == head[j];
        } else if i < |head| {
          assert r[i].0 == order[0];
          assert r[j] == tail[j - |head|];
          var t :| 0 <= t < |order[1..]| && order[1..][t] == r[j].0;
          assert order[t + 1] == r[j].0;
        } else {
          assert r[i] == tail[i - |head|] && r[j] == tail[j - |head|];
        }
      }
    }
  }

  /**
   As written: the keys are sorted into a list that is then dropped, and the
   pairs come out in the map's iteration order, exactly as `as_pairs`.
   */
  function AsPairsOfSortedOrderAsWritten(st: UrlEncodedData.Store, order: seq<string>): (r: seq<Pair>)
    requires IsIterationOrder(order, st.entries)
    ensures forall k :: ValuesOf(r, k) == if k in st.entries then st.entries[k] else []
  {
    var keysInSortedOrder := SortKeys(order);
    var r := UrlEncodedData.AsPairs(st, order);
    r
  }

  /**
   The store for the input `b=1&a=2`: it represents the pairs `(b, 1)`,
   `(a, 2)` (`TwoKeyStoreIsParsed`), which is what that input parses to
   (`SourceTests.TwoKeyInputParses`).
   */
  function TwoKeyStore(): UrlEncodedData.Store
  {
    UrlEncodedData.Store("b=1&a=2", ["b", "a"], map["b" := ["1"], "a" := ["2"]])
  }

  lemma TwoKeyStoreIsParsed()
    ensures UrlEncodedData.Represents(TwoKeyStore(), [("b", "1"), ("a", "2")])
  {
    var ps: seq<Pair> := [("b", "1"), ("a", "2")];
    assert ps[..1] == [("b", "1")] && ps[..1][..0] == [];
    assert ps[0].0 == "b" && ps[1].0 == "a";
    assert forall i :: 0 <= i < |ps| ==> ps[i].0 == "b" || ps[i].0 == "a";
    assert KeysOf(ps) == {"b", "a"};
    assert KeysOf(ps[..1]) == {"b"};
    assert FirstIndex(ps, "b") == 0;
    assert FirstIndex(ps, "a") == 1;
    assert ValuesOf(ps, "b") == ["1"];
    assert ValuesOf(ps, "a") == ["2"];
  }

  /**
   The store parsed from `b=1&a=2`, with a map that iterates `b` before `a`
   (a hash order the source does not rule out): the as-written view emits
   `b` before `a`, so it is not in ascending key order.
   */
  lemma AsWrittenNotSorted()
    ensures UrlEncodedData.Represents(TwoKeyStore(), [("b", "1"), ("a", "2")])
    ensures IsIterationOrder(["b", "a"], TwoKeyStore().entries)
    ensures AsPairsOfSortedOrderAsWritten(TwoKeyStore(), ["b", "a"]) == [("b", "1"), ("a", "2")]
    ensures !KeysAscending(AsPairsOfSortedOrderAsWritten(TwoKeyStore(), ["b", "a"]))
  {
    TwoKeyStoreIsParsed();
    var st := TwoKeyStore();
    var order := ["b", "a"];
    assert IsIterationOrder(order, st.entries);
    assert Flatten(st.entries, order[1..][1..]) == [];
    assert Flatten(st.entries, order[1..]) == [("a", "2")];
    assert Flatten(st.entries, order) == [("b", "1"), ("a", "2")];
    assert !Less("b", "a");
  }

  /**
   Corrected: the pairs grouped by key, keys ascending, each key's values in
   list order; the same pairs as `as_pairs`.
   */
  function AsPairsOfSortedOrder(st: UrlEncodedData.Store, order: seq<string>): (r: seq<Pair>)
    requires IsIterationOrder(order, st.entries)
    ensures KeysAscending(r)
    ensures forall k :: ValuesOf(r, k) == if k in st.entries then st.entries[k] else []
  {
    var keysInSortedOrder := SortKeys(order);
    var r := Flatten(st.entries, keysInSortedOrder);
    FlattenAscending(st.entries, keysInSortedOrder);
    assert NoDup(keysInSortedOrder) by {
      forall i, j | 0 <= i < j < |keysInSortedOrder|
        ensures keysInSortedOrder[i] != keysInSortedOrder[j]
      {
        if keysInSortedOrder[i] == keysInSortedOrder[j] {
          LessIrreflexive(keysInSortedOrder[i]);
        }
      }
    }
    assert forall k :: k in keysInSortedOrder <==> k in order by {
      forall k ensures k in keysInSortedOrder <==> k in order {
        assert k in keysInSortedOrder <==> k in multiset(keysInSortedOrder);
      }
    }
    assert forall k :: ValuesOf(r, k) == if k in st.entries then st.entries[k] else [] by {
      forall k ensures ValuesOf(r, k) == if k in st.entries then st.entries[k] else [] {
        ValuesOfFlatten(st.entries, keysInSortedOrder, k);
      }
    }
    r
  }

  lemma {:induction false} SortedUnique(a: seq<string>, b: seq<string>)
    requires StrictlySorted(a) && StrictlySorted(b)
    requires multiset(a) == multiset(b)
    ensures a == b
  {
    if |a| > 0 && |b| > 0 {
      SortedHeads(a, b);
      SortedTail(a);
      SortedTail(b);
      assert a == [a[0]] + a[1..] && b == [b[0]] + b[1..];
      assert multiset(a[1..]) == multiset(a) - multiset{a[0]};
      assert multiset(b[1..]) == multiset(b) - multiset{b[0]};
      SortedUnique(a[1..], b[1..]);
    } else {
      assert |multiset(a)| == |a| && |multiset(b)| == |b|;
    }
  }

  /** Two ascending lists with the same elements start with the same key. */
  lemma SortedHeads(a: seq<string>, b: seq<string>)
    requires |a| > 0 && |b| > 0
    requires StrictlySorted(a) && StrictlySorted(b)
    requires multiset(a) == multiset(b)
    ensures a[0] == b[0]
  {
    assert a[0] in multiset(b) && b[0] in multiset(a);
    var i :| 0 <= i < |b| && b[i] == a[0];
    var j :| 0 <= j < |a| && a[j] == b[0];
    if 0 < i && 0 < j {
      LessTransitive(a[0], a[j], a[0]);
      LessIrreflexive(a[0]);
    }
  }

  lemma {:induction false} NoDupMultiset(a: seq<string>, x: string)
    requires NoDup(a)
    ensures multiset(a)[x] == if x in a then 1 else 0
  {
    if |a| > 0 {
      NoDupTail(a);
      NoDupMultiset(a[1..], x);
      assert a == [a[0]] + a[1..];
    }
  }

  /**
   The corrected view does not depend on the map's iteration order: any two
   orders of the same keys give the same pairs.
   */
  lemma SortedOrderIsDeterministic(st: UrlEncodedData.Store, o1: seq<string>, o2: seq<string>)
    requires IsIterationOrder(o1, st.entries)
    requires IsIterationOrder(o2, st.entries)
    ensures AsPairsOfSortedOrder(st, o1) == AsPairsOfSortedOrder(st, o2)
  {
    forall x ensures multiset(o1)[x] == multiset(o2)[x] {
      NoDupMultiset(o1, x);
      NoDupMultiset(o2, x);
    }
    assert multiset(o1) == multiset(o2);
    SortedUnique(SortKeys(o1), SortKeys(o2));
  }
}
