/**
 Reference definitions over a sequence of decoded pairs, independent of how
 the store computes anything: which keys occur, the values of one key in
 input order, where a key first occurs, and the flattening of a key-to-values
 map along a chosen key order.
 */
module Pairs {
  import opened Common

  /** The keys that occur in `ps`. */
  function KeysOf(ps: seq<Pair>): set<string>
  {
    set i | 0 <= i < |ps| :: ps[i].0
  }

  /** The values paired with `k` in `ps`, in input order, duplicates kept. */
  function ValuesOf(ps: seq<Pair>, k: string): seq<string>
  {
    if |ps| == 0 then []
    else ValuesOf(ps[..|ps| - 1], k) + (if ps[|ps| - 1].0 == k then [ps[|ps| - 1].1] else [])
  }

  /** Index of the first pair whose key is `k`. */
  function FirstIndex(ps: seq<Pair>, k: string): (r: nat)
    requires k in KeysOf(ps)
    ensures r < |ps| && ps[r].0 == k
    ensures forall j :: 0 <= j < r ==> ps[j].0 != k
  {
    var pre := ps[..|ps| - 1];
    if k in KeysOf(pre) then FirstIndex(pre, k)
    else
      assert forall j :: 0 <= j < |ps| - 1 ==> ps[j] == pre[j];
      |ps| - 1
  }

  /**
   `ks` lists the keys of `ps` exactly once each, ordered by where each key
   first occurs in `ps`.
   */
  ghost predicate InFirstSeenOrder(ks: seq<string>, ps: seq<Pair>)
  {
    && NoDup(ks)
    && (forall k :: k in ks <==> k in KeysOf(ps))
    && (forall i, j :: 0 <= i < j < |ks| ==>
          ks[i] in KeysOf(ps) && ks[j] in KeysOf(ps) &&
          FirstIndex(ps, ks[i]) < FirstIndex(ps, ks[j]))
  }

  /** `(k, v)` for each `v` of `vs`, in order. */
  function Expand(k: string, vs: seq<string>): (r: seq<Pair>)
    ensures |r| == |vs|
    ensures forall i :: 0 <= i < |r| ==> r[i] == (k, vs[i])
  {
    if |vs| == 0 then [] else [(k, vs[0])] + Expand(k, vs[1..])
  }

  /**
   The pairs of map `m` visited along `order`: for each key of `order` that is
   in `m`, its values in list order. Keys absent from `m` contribute nothing.
   */
  function Flatten(m: map<string, seq<string>>, order: seq<string>): seq<Pair>
  {
    if |order| == 0 then []
    else (if order[0] in m then Expand(order[0], m[order[0]]) else []) + Flatten(m, order[1..])
  }

  /** `order` enumerates the keys of `m`, each exactly once (a map iteration order). */
  predicate IsIterationOrder(order: seq<string>, m: map<string, seq<string>>)
  {
    && NoDup(order)
    && (forall i :: 0 <= i < |order| ==> order[i] in m)
    && (forall k :: k in m ==> k in order)
  }

  // ----- lemmas -----

  lemma ValuesOfSnoc(ps: seq<Pair>, p: Pair, k: string)
    ensures ValuesOf(ps + [p], k) == ValuesOf(ps, k) + (if p.0 == k then [p.1] else [])
  {
    assert (ps + [p])[..|ps|] == ps;
  }

  lemma KeysOfSnoc(ps: seq<Pair>, p: Pair)
    ensures KeysOf(ps + [p]) == KeysOf(ps) + {p.0}
  {
    var qs := ps + [p];
    forall k | k in KeysOf(qs) ensures k in KeysOf(ps) + {p.0} {
      var i :| 0 <= i < |qs| && qs[i].0 == k;
      if i < |ps| { assert ps[i] == qs[i]; }
    }
    forall k | k in KeysOf(ps) ensures k in KeysOf(qs) {
      var i :| 0 <= i < |ps| && ps[i].0 == k;
      assert qs[i] == ps[i];
    }
    assert qs[|ps|] == p;
  }

  /** Appending a pair leaves the first occurrence of every known key in place. */
  lemma FirstIndexSnoc(ps: seq<Pair>, p: Pair, k: string)
    requires k in KeysOf(ps)
    ensures k in KeysOf(ps + [p])
    ensures FirstIndex(ps + [p], k) == FirstIndex(ps, k)
  {
    KeysOfSnoc(ps, p);
    assert (ps + [p])[..|ps|] == ps;
  }

  /** A key seen for the first time in the appended pair first occurs there. */
  lemma FirstIndexNew(ps: seq<Pair>, p: Pair)
    requires p.0 !in KeysOf(ps)
    ensures p.0 in KeysOf(ps + [p])
    ensures FirstIndex(ps + [p], p.0) == |ps|
  {
    KeysOfSnoc(ps, p);
    assert (ps + [p])[..|ps|] == ps;
  }

  /**
   The ledger step of the parser: keep the list when the key is known, append
   it otherwise. It carries first-seen order from `ps` to `ps + [p]`.
   */
  lemma FirstSeenStep(ks: seq<string>, ps: seq<Pair>, p: Pair)
    requires InFirstSeenOrder(ks, ps)
    ensures InFirstSeenOrder(if p.0 in ks then ks else ks + [p.0], ps + [p])
  {
    var qs := ps + [p];
    KeysOfSnoc(ps, p);
    forall k | k in KeysOf(ps) ensures k in KeysOf(qs) && FirstIndex(qs, k) == FirstIndex(ps, k) {
      FirstIndexSnoc(ps, p, k);
    }
    if p.0 !in ks {
      FirstIndexNew(ps, p);
      var ks' := ks + [p.0];
      forall i | 0 <= i < |ks| ensures FirstIndex(qs, ks'[i]) < FirstIndex(qs, p.0) {
        assert ks'[i] == ks[i] && ks[i] in KeysOf(ps);
      }
    }
  }

  lemma {:induction false} ValuesOfAppend(a: seq<Pair>, b: seq<Pair>, k: string)
    ensures ValuesOf(a + b, k) == ValuesOf(a, k) + ValuesOf(b, k)
    decreases |b|
  {
    if |b| == 0 {
      assert a + b == a;
    } else {
      var b' := b[..|b| - 1];
      assert a + b == (a + b') + [b[|b| - 1]];
      assert b == b' + [b[|b| - 1]];
      ValuesOfSnoc(a + b', b[|b| - 1], k);
      ValuesOfSnoc(b', b[|b| - 1], k);
      ValuesOfAppend(a, b', k);
    }
  }

  /** A key occurs in `ps` exactly when it has at least one value there. */
  lemma {:induction false} KeysOfValues(ps: seq<Pair>, k: string)
    ensures k in KeysOf(ps) <==> ValuesOf(ps, k) != []
  {
    if |ps| > 0 {
      var pre := ps[..|ps| - 1];
      KeysOfValues(pre, k);
      assert ps == pre + [ps[|ps| - 1]];
      KeysOfSnoc(pre, ps[|ps| - 1]);
    }
  }

  lemma {:induction false} ValuesOfExpand(k: string, vs: seq<string>, k': string)
    ensures ValuesOf(Expand(k, vs), k') == if k == k' then vs else []
  {
    if |vs| > 0 {
      ValuesOfExpand(k, vs[1..], k');
      ValuesOfAppend([(k, vs[0])], Expand(k, vs[1..]), k');
      assert ValuesOf([(k, vs[0])], k') == ValuesOf([], k') + (if k == k' then [vs[0]] else []);
      assert vs == [vs[0]] + vs[1..];
    }
  }

  /**
   Flattening a map along a duplicate-free order gives every key visited
   exactly its list of values, in list order.
   */
  lemma {:induction false} ValuesOfFlatten(m: map<string, seq<string>>, order: seq<string>, k: string)
    requires NoDup(order)
    ensures ValuesOf(Flatten(m, order), k) == if k in order && k in m then m[k] else []
  {
    if |order| > 0 {
      var head := if order[0] in m then Expand(order[0], m[order[0]]) else [];
      ValuesOfAppend(head, Flatten(m, order[1..]), k);
      NoDupTail(order);
      ValuesOfFlatten(m, order[1..], k);
      if order[0] in m { ValuesOfExpand(order[0], m[order[0]], k); }
      assert k in order <==> k == order[0] || k in order[1..];
    }
  }

  /** Every key of a flattening is a key of the order. */
  lemma {:induction false} FlattenKeys(m: map<string, seq<string>>, order: seq<string>)
    ensures forall i :: 0 <= i < |Flatten(m, order)| ==> Flatten(m, order)[i].0 in order
  {
    if |order| > 0 {
      FlattenKeys(m, order[1..]);
      var head := if order[0] in m then Expand(order[0], m[order[0]]) else [];
      var r := Flatten(m, order);
      assert r == head + Flatten(m, order[1..]);
      forall i | 0 <= i < |r| ensures r[i].0 in order {
        if i >= |head| {
          assert r[i] == Flatten(m, order[1..])[i - |head|];
          assert r[i].0 in order[1..];
        }
      }
    }
  }

  /** How often `(k, v)` occurs in `ps` is how often `v` occurs among the values of `k`. */
  lemma {:induction false} MultiplicityByKey(ps: seq<Pair>, k: string, v: string)
    ensures multiset(ps)[(k, v)] == multiset(ValuesOf(ps, k))[v]
  {
    if |ps| > 0 {
      var pre := ps[..|ps| - 1];
      var p := ps[|ps| - 1];
      assert ps == pre + [p];
      MultiplicityByKey(pre, k, v);
      ValuesOfSnoc(pre, p, k);
    }
  }

  /**
   Two pair sequences that agree on every key's value list hold the same
   pairs with the same multiplicities: one is a permutation of the other.
   */
  lemma SameGroupsSamePairs(a: seq<Pair>, b: seq<Pair>)
    requires forall k :: ValuesOf(a, k) == ValuesOf(b, k)
    ensures multiset(a) == multiset(b)
    ensures |a| == |b|
  {
    forall p: Pair ensures multiset(a)[p] == multiset(b)[p] {
      MultiplicityByKey(a, p.0, p.1);
      MultiplicityByKey(b, p.0, p.1);
    }
    assert multiset(a) == multiset(b);
    assert |multiset(a)| == |a| && |multiset(b)| == |b|;
  }

  /** `m` holds exactly the keys of `ps`, each with its values in input order. */
  ghost predicate Groups(m: map<string, seq<string>>, ps: seq<Pair>)
  {
    && m.Keys == KeysOf(ps)
    && (forall k :: k in m ==> m[k] == ValuesOf(ps, k))
  }

  /** A map grouping `ps` is the one map from each key of `ps` to its values. */
  lemma GroupsIs(m: map<string, seq<string>>, ps: seq<Pair>)
    requires Groups(m, ps)
    ensures m == map k | k in KeysOf(ps) :: ValuesOf(ps, k)
  {
  }

  /** Each key's pairs sit next to each other in `ps`. */
  predicate KeysContiguous(ps: seq<Pair>)
  {
    forall i, j, l :: 0 <= i < j < l < |ps| && ps[i].0 == ps[l].0 ==> ps[j].0 == ps[i].0
  }

  /** Pairs whose only repeated keys sit side by side are key-contiguous. */
  lemma RepeatsAdjacent(ps: seq<Pair>)
    requires forall i, j :: 0 <= i < j < |ps| && ps[i].0 == ps[j].0 ==> j == i + 1
    ensures KeysContiguous(ps)
  {
  }

  /** A run of one key followed by key-contiguous pairs that never use that key stays key-contiguous. */
  lemma ContiguousAppend(head: seq<Pair>, k: string, rest: seq<Pair>)
    requires forall i :: 0 <= i < |head| ==> head[i].0 == k
    requires forall i :: 0 <= i < |rest| ==> rest[i].0 != k
    requires KeysContiguous(rest)
    ensures KeysContiguous(head + rest)
  {
  }

  /**
   Flattening along an order without repeats lists each key's pairs side by
   side: whatever the map holds, the result is key-contiguous.
   */
  lemma {:induction false} FlattenContiguous(m: map<string, seq<string>>, order: seq<string>)
    requires NoDup(order)
    ensures KeysContiguous(Flatten(m, order))
  {
    if |order| > 0 {
      NoDupTail(order);
      FlattenContiguous(m, order[1..]);
      FlattenKeys(m, order[1..]);
      var head := if order[0] in m then Expand(order[0], m[order[0]]) else [];
      assert Flatten(m, order) == head + Flatten(m, order[1..]);
      ContiguousAppend(head, order[0], Flatten(m, order[1..]));
    }
  }

  lemma {:induction false} FlattenAppend(m: map<string, seq<string>>, a: seq<string>, b: seq<string>)
    ensures Flatten(m, a + b) == Flatten(m, a) + Flatten(m, b)
  {
    if |a| == 0 {
      assert a + b == b;
    } else {
      assert (a + b)[0] == a[0];
      assert (a + b)[1..] == a[1..] + b;
      FlattenAppend(m, a[1..], b);
    }
  }

  /** Flattening only looks at the keys it visits. */
  lemma {:induction false} FlattenAgree(m1: map<string, seq<string>>, m2: map<string, seq<string>>, order: seq<string>)
    requires forall i :: 0 <= i < |order| ==> (order[i] in m1 <==> order[i] in m2)
    requires forall i :: 0 <= i < |order| && order[i] in m1 ==> m1[order[i]] == m2[order[i]]
    ensures Flatten(m1, order) == Flatten(m2, order)
  {
    if |order| > 0 {
      FlattenAgree(m1, m2, order[1..]);
    }
  }

  lemma ExpandSnoc(k: string, vs: seq<string>, v: string)
    ensures Expand(k, vs + [v]) == Expand(k, vs) + [(k, v)]
  {
  }

  /**
   In first-seen order, the last key listed is the key of the last pair,
   when that key is new or when keys are contiguous.
   */
  lemma LastListedKey(ks: seq<string>, ps: seq<Pair>)
    requires |ps| > 0 && InFirstSeenOrder(ks, ps)
    requires ps[|ps| - 1].0 !in KeysOf(ps[..|ps| - 1]) || KeysContiguous(ps)
    ensures |ks| > 0 && ks[|ks| - 1] == ps[|ps| - 1].0
    ensures ks == ks[..|ks| - 1] + [ps[|ps| - 1].0] && ps[|ps| - 1].0 !in ks[..|ks| - 1]
  {
    var n := |ps|;
    var k := ps[n - 1].0;
    assert k in KeysOf(ps);
    assert k in ks;
    var t :| 0 <= t < |ks| && ks[t] == k;
    var y := ks[|ks| - 1];
    var f := FirstIndex(ps, k);
    var g := FirstIndex(ps, y);
    assert f <= g;
    if k !in KeysOf(ps[..n - 1]) {
      assert ps[..n - 1] + [ps[n - 1]] == ps;
      FirstIndexNew(ps[..n - 1], ps[n - 1]);
      assert g == f;
    } else {
      assert ps[f].0 == ps[n - 1].0;
    }
    var ks' := ks[..|ks| - 1];
    assert ks == ks' + [k];
    forall i | 0 <= i < |ks'| ensures ks'[i] != k {
      assert ks'[i] == ks[i];
    }
  }

  lemma ContiguousPrefix(ps: seq<Pair>, n: nat)
    requires n <= |ps| && KeysContiguous(ps)
    ensures KeysContiguous(ps[..n])
  {
  }

  /** The last pair's key, and the shorter maps and orders the induction works on. */
  ghost function LastKey(ps: seq<Pair>): string
    requires |ps| > 0
  {
    ps[|ps| - 1].0
  }

  ghost function DropLastMap(m: map<string, seq<string>>, ps: seq<Pair>): map<string, seq<string>>
    requires |ps| > 0
  {
    var pre := ps[..|ps| - 1];
    if LastKey(ps) in KeysOf(pre) then m[LastKey(ps) := ValuesOf(pre, LastKey(ps))] else m - {LastKey(ps)}
  }

  ghost function DropLastOrder(ks: seq<string>, ps: seq<Pair>): seq<string>
    requires |ps| > 0 && |ks| > 0
  {
    if LastKey(ps) in KeysOf(ps[..|ps| - 1]) then ks else ks[..|ks| - 1]
  }

  /** Dropping the last pair keeps first-seen order, minus its key if that key was new. */
  lemma DropLastFirstSeen(ks: seq<string>, ps: seq<Pair>)
    requires |ps| > 0 && InFirstSeenOrder(ks, ps)
    requires |ks| > 0 && ks[|ks| - 1] == ps[|ps| - 1].0
    ensures InFirstSeenOrder(DropLastOrder(ks, ps), ps[..|ps| - 1])
  {
    var pre := ps[..|ps| - 1];
    var p := ps[|ps| - 1];
    assert ps == pre + [p];
    KeysOfSnoc(pre, p);
    forall x | x in KeysOf(pre) ensures x in KeysOf(ps) && FirstIndex(ps, x) == FirstIndex(pre, x) {
      FirstIndexSnoc(pre, p, x);
    }
    if p.0 in KeysOf(pre) {
      SameKeysFirstSeen(ks, ps, pre);
    } else {
      SameKeysFirstSeen(ks[..|ks| - 1], ps, pre);
    }
  }

  /** A first-seen order of `ps` whose keys all occur, at the same first index, in `pre`. */
  lemma SameKeysFirstSeen(o: seq<string>, ps: seq<Pair>, pre: seq<Pair>)
    requires forall x :: x in KeysOf(pre) ==> x in KeysOf(ps) && FirstIndex(ps, x) == FirstIndex(pre, x)
    requires NoDup(o) && forall x :: x in o <==> x in KeysOf(pre)
    requires forall i, j :: 0 <= i < j < |o| ==>
          o[i] in KeysOf(ps) && o[j] in KeysOf(ps) &&
          FirstIndex(ps, o[i]) < FirstIndex(ps, o[j])
    ensures InFirstSeenOrder(o, pre)
  {
    forall i, j | 0 <= i < j < |o|
      ensures o[i] in KeysOf(pre) && o[j] in KeysOf(pre) && FirstIndex(pre, o[i]) < FirstIndex(pre, o[j])
    {
      assert o[i] in o && o[j] in o;
    }
  }

  /** Per-key value lists of `ps` without its last pair. */
  lemma DropLastGroups(m: map<string, seq<string>>, ps: seq<Pair>)
    requires |ps| > 0
    requires Groups(m, ps)
    ensures Groups(DropLastMap(m, ps), ps[..|ps| - 1])
    ensures var mPre := DropLastMap(m, ps);
      && m[LastKey(ps)] == (if LastKey(ps) in mPre then mPre[LastKey(ps)] else []) + [ps[|ps| - 1].1]
      && (forall x :: x in m && x != LastKey(ps) ==> x in mPre && mPre[x] == m[x])
  {
    var n := |ps|;
    var pre := ps[..n - 1];
    var p := ps[n - 1];
    assert ps == pre + [p];
    KeysOfSnoc(pre, p);
    forall x ensures ValuesOf(ps, x) == ValuesOf(pre, x) + (if p.0 == x then [p.1] else []) {
      ValuesOfSnoc(pre, p, x);
    }
    KeysOfValues(pre, p.0);
  }

  /** Appending one pair's key to the visit order appends that pair. */
  lemma FlattenSnocKey(m: map<string, seq<string>>, mPre: map<string, seq<string>>,
                       ksPre: seq<string>, ks': seq<string>, k: string, v: string)
    requires ksPre == if k in mPre then ks' + [k] else ks'
    requires k !in ks' && k in m
    requires m[k] == (if k in mPre then mPre[k] else []) + [v]
    requires forall x :: x in m && x != k ==> x in mPre && mPre[x] == m[x]
    requires forall x :: x in mPre && x != k ==> x in m
    ensures Flatten(m, ks' + [k]) == Flatten(mPre, ksPre) + [(k, v)]
  {
    FlattenAppend(m, ks', [k]);
    FlattenAgree(m, mPre, ks');
    assert Flatten(m, [k]) == Expand(k, m[k]);
    if k in mPre {
      FlattenAppend(mPre, ks', [k]);
      assert Flatten(mPre, [k]) == Expand(k, mPre[k]);
      ExpandSnoc(k, mPre[k], v);
    } else {
      assert Expand(k, m[k]) == [(k, v)];
    }
  }

  /**
   When each key's pairs are contiguous, flattening the per-key value lists
   along first-seen key order rebuilds the pairs exactly.
   */
  lemma {:induction false} FlattenFirstSeen(ks: seq<string>, m: map<string, seq<string>>, ps: seq<Pair>)
    requires Groups(m, ps)
    requires InFirstSeenOrder(ks, ps)
    requires KeysContiguous(ps)
    ensures Flatten(m, ks) == ps
    decreases |ps|
  {
    var n := |ps|;
    if n == 0 {
      assert KeysOf(ps) == {};
    } else {
      RecursionReady(ks, m, ps);
      FlattenFirstSeen(DropLastOrder(ks, ps), DropLastMap(m, ps), ps[..n - 1]);
      FlattenFirstSeenStep(ks, m, ps);
    }
  }

  /** Without its last pair, `ps` still meets the rebuild lemma's requirements. */
  lemma RecursionReady(ks: seq<string>, m: map<string, seq<string>>, ps: seq<Pair>)
    requires |ps| > 0
    requires Groups(m, ps)
    requires InFirstSeenOrder(ks, ps)
    requires KeysContiguous(ps)
    ensures |ks| > 0 && ks == ks[..|ks| - 1] + [LastKey(ps)] && LastKey(ps) !in ks[..|ks| - 1]
    ensures Groups(DropLastMap(m, ps), ps[..|ps| - 1])
    ensures InFirstSeenOrder(DropLastOrder(ks, ps), ps[..|ps| - 1])
    ensures KeysContiguous(ps[..|ps| - 1])
  {
    ContiguousPrefix(ps, |ps| - 1);
    LastListedKey(ks, ps);
    DropLastFirstSeen(ks, ps);
    DropLastGroups(m, ps);
  }

  /** Flattening the full map appends the last pair to the rebuilt prefix. */
  lemma FlattenFirstSeenStep(ks: seq<string>, m: map<string, seq<string>>, ps: seq<Pair>)
    requires |ps| > 0 && Groups(m, ps)
    requires |ks| > 0 && ks == ks[..|ks| - 1] + [LastKey(ps)] && LastKey(ps) !in ks[..|ks| - 1]
    requires Flatten(DropLastMap(m, ps), DropLastOrder(ks, ps)) == ps[..|ps| - 1]
    ensures Flatten(m, ks) == ps
  {
    var n := |ps|;
    var pre := ps[..n - 1];
    var p := ps[n - 1];
    DropLastGroups(m, ps);
    FlattenSnocKey(m, DropLastMap(m, ps), DropLastOrder(ks, ps), ks[..|ks| - 1], p.0, p.1);
    assert ps == pre + [p];
  }
}
