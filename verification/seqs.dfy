/**
  Sequence operations shared by the commands: JavaScript's `filter` and `findIndex`,
  de-duplication by a key (the `findIndex` idiom and insertion-ordered `Set`), and
  grouping by a key into an insertion-ordered record of arrays.
 */
module Seqs {

  /** `a` is obtained from `b` by deleting elements, so `a` keeps `b`'s relative order. */
  predicate Subsequence<T(==,!new)>(a: seq<T>, b: seq<T>)
    decreases |b|
  {
    a == [] || (b != [] && ((a[0] == b[0] && Subsequence(a[1..], b[1..])) || Subsequence(a, b[1..])))
  }

  lemma {:induction false} SubsequenceReflexive<T(!new)>(s: seq<T>)
    ensures Subsequence(s, s)
    decreases |s|
  {
    if s != [] {
      SubsequenceReflexive(s[1..]);
    }
  }

  /** `s.filter(p)` */
  function Filter<T(==,!new)>(s: seq<T>, p: T -> bool): (r: seq<T>)
    ensures |r| <= |s|
    decreases |s|
  {
    if s == [] then [] else (if p(s[0]) then [s[0]] else []) + Filter(s[1..], p)
  }

  /** `filter` keeps exactly the elements that pass the test. */
  lemma {:induction false} FilterMembers<T(!new)>(s: seq<T>, p: T -> bool)
    ensures forall x :: x in Filter(s, p) <==> x in s && p(x)
    decreases |s|
  {
    if s != [] {
      FilterMembers(s[1..], p);
      assert s == [s[0]] + s[1..];
    }
  }

  /** Filtering keeps every occurrence of a kept value: each appears as often as in `s`. */
  lemma {:induction false} FilterCounts<T(!new)>(s: seq<T>, p: T -> bool)
    ensures forall x :: multiset(Filter(s, p))[x] == if p(x) then multiset(s)[x] else 0
    decreases |s|
  {
    if s != [] {
      FilterCounts(s[1..], p);
      assert s == [s[0]] + s[1..];
      assert multiset(s) == multiset([s[0]]) + multiset(s[1..]);
      var head := if p(s[0]) then [s[0]] else [];
      assert multiset(Filter(s, p)) == multiset(head) + multiset(Filter(s[1..], p));
    }
  }

  /** Filtering keeps the relative order of the elements it keeps. */
  lemma {:induction false} FilterIsSubsequence<T(!new)>(s: seq<T>, p: T -> bool)
    ensures Subsequence(Filter(s, p), s)
    decreases |s|
  {
    if s != [] {
      FilterIsSubsequence(s[1..], p);
      var rest := Filter(s[1..], p);
      if p(s[0]) {
        assert Filter(s, p) == [s[0]] + rest;
        assert ([s[0]] + rest)[1..] == rest;
      } else {
        assert Filter(s, p) == rest;
      }
    }
  }

  /** Filtering distributes over concatenation. */
  /**
    Moving `a` behind a front element `b` does not change what a filter keeps when at most
    one of the two passes it.
   */
  lemma FilterPastFront<T(!new)>(a: T, b: T, u: seq<T>, v: seq<T>, p: T -> bool)
    requires !(p(a) && p(b))
    requires Filter(u, p) == (if p(a) then [a] else []) + Filter(v, p)
    ensures Filter([b] + u, p) == (if p(a) then [a] else []) + Filter([b] + v, p)
  {
    var front := if p(b) then [b] else [];
    assert ([b] + u)[1..] == u;
    assert Filter([b] + u, p) == front + Filter(u, p);
    assert ([b] + v)[1..] == v;
    assert Filter([b] + v, p) == front + Filter(v, p);
    if p(a) {
      assert front == [];
    } else {
      assert Filter(u, p) == Filter(v, p);
    }
  }

  lemma {:induction false} FilterConcat<T(!new)>(a: seq<T>, b: seq<T>, p: T -> bool)
    ensures Filter(a + b, p) == Filter(a, p) + Filter(b, p)
    decreases |a|
  {
    if a != [] {
      assert (a + b)[0] == a[0];
      assert (a + b)[1..] == a[1..] + b;
      FilterConcat(a[1..], b, p);
      var head := if p(a[0]) then [a[0]] else [];
      assert Filter(a + b, p) == head + Filter(a[1..] + b, p);
      assert Filter(a, p) == head + Filter(a[1..], p);
      assert head + (Filter(a[1..], p) + Filter(b, p)) == (head + Filter(a[1..], p)) + Filter(b, p);
    } else {
      assert a + b == b;
    }
  }

  /** A filter that every element passes returns its input unchanged. */
  lemma {:induction false} FilterKeepsAll<T(!new)>(s: seq<T>, p: T -> bool)
    requires forall x :: x in s ==> p(x)
    ensures Filter(s, p) == s
    decreases |s|
  {
    if s != [] {
      FilterKeepsAll(s[1..], p);
    }
  }

  /** Filtering twice with the same test is filtering once. */
  lemma FilterIdempotent<T(!new)>(s: seq<T>, p: T -> bool)
    ensures Filter(Filter(s, p), p) == Filter(s, p)
  {
    FilterMembers(s, p);
    FilterKeepsAll(Filter(s, p), p);
  }

  /**
    `s.findIndex(x => key(x) === k)`: the index of the first element whose key is `k`,
    or -1 when no element has that key.
   */
  function FindIndex<T, K(==)>(s: seq<T>, key: T -> K, k: K): (i: int)
    ensures -1 <= i < |s|
    ensures i == -1 <==> forall j :: 0 <= j < |s| ==> key(s[j]) != k
    ensures 0 <= i ==> key(s[i]) == k && forall j :: 0 <= j < i ==> key(s[j]) != k
    decreases |s|
  {
    if s == [] then -1
    else if key(s[0]) == k then 0
    else
      var i := FindIndex(s[1..], key, k);
      if i == -1 then -1 else i + 1
  }

  /** Some element of `s` has key `k`. */
  ghost predicate HasKey<T, K>(s: seq<T>, key: T -> K, k: K) {
    exists i :: 0 <= i < |s| && key(s[i]) == k
  }

  /** No two elements of `s` share a key. */
  ghost predicate DistinctKeys<T, K>(s: seq<T>, key: T -> K) {
    forall i, j :: 0 <= i < j < |s| ==> key(s[i]) != key(s[j])
  }

  /** Appending an element does not move the first occurrence of a key already present. */
  lemma FindIndexSnoc<T(!new), K(!new)>(s: seq<T>, x: T, key: T -> K, k: K)
    ensures HasKey(s, key, k) <==> 0 <= FindIndex(s, key, k)
    ensures FindIndex(s + [x], key, k)
         == if HasKey(s, key, k) then FindIndex(s, key, k) else if key(x) == k then |s| else -1
  {
    var i := FindIndex(s, key, k);
    var i' := FindIndex(s + [x], key, k);
    if HasKey(s, key, k) {
      var w :| 0 <= w < |s| && key(s[w]) == k;
      assert (s + [x])[w] == s[w];
      assert 0 <= i;
      assert (s + [x])[i] == s[i];
    } else {
      assert i == -1;
      forall j | 0 <= j < |s|
        ensures key((s + [x])[j]) != k
      {
        assert (s + [x])[j] == s[j];
      }
      assert (s + [x])[|s|] == x;
    }
  }

  /** The elements among the first `n` of `s` that are the first with their key. */
  function FirstsUpTo<T, K(==)>(s: seq<T>, key: T -> K, n: nat): seq<T>
    requires n <= |s|
    decreases n
  {
    if n == 0 then []
    else FirstsUpTo(s, key, n - 1) + (if FindIndex(s, key, key(s[n - 1])) == n - 1 then [s[n - 1]] else [])
  }

  /**
    `s.filter((x, i, self) => i === self.findIndex(y => key(y) === key(x)))`: keeps each
    element that is the first one with its key.
   */
  function DistinctBy<T, K(==)>(s: seq<T>, key: T -> K): seq<T> {
    FirstsUpTo(s, key, |s|)
  }

  lemma {:induction false} FirstsUpToSnoc<T(!new), K(!new)>(s: seq<T>, x: T, key: T -> K, n: nat)
    requires n <= |s|
    ensures FirstsUpTo(s + [x], key, n) == FirstsUpTo(s, key, n)
    decreases n
  {
    if n > 0 {
      FirstsUpToSnoc(s, x, key, n - 1);
      var y := s[n - 1];
      assert (s + [x])[n - 1] == y;
      assert HasKey(s, key, key(y));
      FindIndexSnoc(s, x, key, key(y));
    }
  }

  /** De-duplicating a longer sequence extends the earlier result by the new element if its key is new. */
  lemma DistinctBySnoc<T(!new), K(!new)>(s: seq<T>, x: T, key: T -> K)
    ensures DistinctBy(s + [x], key) == DistinctBy(s, key) + (if HasKey(s, key, key(x)) then [] else [x])
  {
    FirstsUpToSnoc(s, x, key, |s|);
    FindIndexSnoc(s, x, key, key(x));
    assert (s + [x])[|s|] == x;
  }

  /** Every element of `r` is the first element of `s` with its key. */
  ghost predicate KeepsFirsts<T, K>(r: seq<T>, s: seq<T>, key: T -> K) {
    forall i :: 0 <= i < |r| ==>
      0 <= FindIndex(s, key, key(r[i])) && r[i] == s[FindIndex(s, key, key(r[i]))]
  }

  /** The keys of `r` occur in `r` in the order of their first occurrence in `s`. */
  ghost predicate InFirstOccurrenceOrder<T, K>(r: seq<T>, s: seq<T>, key: T -> K) {
    forall i, j :: 0 <= i < j < |r| ==> FindIndex(s, key, key(r[i])) < FindIndex(s, key, key(r[j]))
  }

  /** `r` and `s` have the same keys. */
  ghost predicate SameKeys<T, K(!new)>(r: seq<T>, s: seq<T>, key: T -> K) {
    forall k :: HasKey(r, key, k) <==> HasKey(s, key, k)
  }

  lemma {:induction false} DistinctBySameKeys<T(!new), K(!new)>(s: seq<T>, key: T -> K)
    ensures SameKeys(DistinctBy(s, key), s, key)
    decreases |s|
  {
    if s != [] {
      var s', x := s[..|s| - 1], s[|s| - 1];
      assert s == s' + [x];
      DistinctBySameKeys(s', key);
      DistinctBySnoc(s', x, key);
      var r', r := DistinctBy(s', key), DistinctBy(s, key);
      forall k
        ensures HasKey(r, key, k) <==> HasKey(s, key, k)
      {
        if HasKey(s, key, k) {
          var w :| 0 <= w < |s| && key(s[w]) == k;
          if HasKey(s', key, k) {
            var v :| 0 <= v < |r'| && key(r'[v]) == k;
            assert r[v] == r'[v];
          } else {
            assert w == |s'|;
            assert r[|r'|] == x;
          }
        }
        if HasKey(r, key, k) {
          var v :| 0 <= v < |r| && key(r[v]) == k;
          if v < |r'| {
            assert r[v] == r'[v];
            assert HasKey(r', key, k);
            var w :| 0 <= w < |s'| && key(s'[w]) == k;
            assert s[w] == s'[w];
          } else {
            assert s[|s'|] == x;
          }
        }
      }
    }
  }

  /** Appending `x` moves no first occurrence of a key the earlier de-duplication kept. */
  lemma DistinctBySnocIndices<T(!new), K(!new)>(s': seq<T>, x: T, key: T -> K)
    ensures forall i :: 0 <= i < |DistinctBy(s', key)| ==>
              FindIndex(s' + [x], key, key(DistinctBy(s', key)[i])) == FindIndex(s', key, key(DistinctBy(s', key)[i])) < |s'|
  {
    var r' := DistinctBy(s', key);
    DistinctBySameKeys(s', key);
    forall i | 0 <= i < |r'|
      ensures FindIndex(s' + [x], key, key(r'[i])) == FindIndex(s', key, key(r'[i])) < |s'|
    {
      assert HasKey(r', key, key(r'[i]));
      FindIndexSnoc(s', x, key, key(r'[i]));
    }
  }

  lemma {:induction false} DistinctByKeepsFirsts<T(!new), K(!new)>(s: seq<T>, key: T -> K)
    ensures KeepsFirsts(DistinctBy(s, key), s, key)
    decreases |s|
  {
    if s != [] {
      var s', x := s[..|s| - 1], s[|s| - 1];
      assert s == s' + [x];
      DistinctByKeepsFirsts(s', key);
      DistinctBySnocIndices(s', x, key);
      DistinctBySnoc(s', x, key);
      var r', r := DistinctBy(s', key), DistinctBy(s, key);
      forall i | 0 <= i < |r|
        ensures 0 <= FindIndex(s, key, key(r[i])) && r[i] == s[FindIndex(s, key, key(r[i]))]
      {
        if i < |r'| {
          assert r[i] == r'[i];
        } else {
          FindIndexSnoc(s', x, key, key(x));
        }
      }
    }
  }

  lemma {:induction false} DistinctByOrdered<T(!new), K(!new)>(s: seq<T>, key: T -> K)
    ensures InFirstOccurrenceOrder(DistinctBy(s, key), s, key)
    decreases |s|
  {
    if s != [] {
      var s', x := s[..|s| - 1], s[|s| - 1];
      assert s == s' + [x];
      DistinctByOrdered(s', key);
      DistinctBySnocIndices(s', x, key);
      DistinctBySnoc(s', x, key);
      var r', r := DistinctBy(s', key), DistinctBy(s, key);
      if !HasKey(s', key, key(x)) {
        FindIndexSnoc(s', x, key, key(x));
        forall i, j | 0 <= i < j < |r|
          ensures FindIndex(s, key, key(r[i])) < FindIndex(s, key, key(r[j]))
        {
          assert r[i] == r'[i];
          if j < |r'| {
            assert r[j] == r'[j];
          }
        }
      }
    }
  }

  lemma DistinctByFirsts<T(!new), K(!new)>(s: seq<T>, key: T -> K)
    ensures KeepsFirsts(DistinctBy(s, key), s, key)
    ensures InFirstOccurrenceOrder(DistinctBy(s, key), s, key)
  {
    DistinctByKeepsFirsts(s, key);
    DistinctByOrdered(s, key);
  }

  /**
    De-duplication keeps exactly one element per key, the first one, in the order in
    which the keys first occur.
   */
  lemma DistinctByProps<T(!new), K(!new)>(s: seq<T>, key: T -> K)
    ensures DistinctKeys(DistinctBy(s, key), key)
    ensures SameKeys(DistinctBy(s, key), s, key)
    ensures KeepsFirsts(DistinctBy(s, key), s, key)
    ensures InFirstOccurrenceOrder(DistinctBy(s, key), s, key)
  {
    DistinctBySameKeys(s, key);
    DistinctByFirsts(s, key);
    var r := DistinctBy(s, key);
    forall i, j | 0 <= i < j < |r|
      ensures key(r[i]) != key(r[j])
    {
      assert FindIndex(s, key, key(r[i])) < FindIndex(s, key, key(r[j]));
    }
  }

  /** A sequence whose keys are already distinct is its own de-duplication. */
  lemma {:induction false} DistinctByOfDistinct<T(!new), K(!new)>(s: seq<T>, key: T -> K)
    requires DistinctKeys(s, key)
    ensures DistinctBy(s, key) == s
    decreases |s|
  {
    if s != [] {
      var s', x := s[..|s| - 1], s[|s| - 1];
      assert s == s' + [x];
      assert DistinctKeys(s', key) by {
        forall i, j | 0 <= i < j < |s'|
          ensures key(s'[i]) != key(s'[j])
        {
          assert s'[i] == s[i] && s'[j] == s[j];
        }
      }
      DistinctByOfDistinct(s', key);
      DistinctBySnoc(s', x, key);
    }
  }

  /** De-duplicating twice is de-duplicating once. */
  lemma DistinctByIdempotent<T(!new), K(!new)>(s: seq<T>, key: T -> K)
    ensures DistinctBy(DistinctBy(s, key), key) == DistinctBy(s, key)
  {
    DistinctByProps(s, key);
    DistinctByOfDistinct(DistinctBy(s, key), key);
  }

  function Id<K>(k: K): K { k }

  /** `Array.from(new Set(ks))`: each value once, in order of first appearance. */
  function Distinct<K(==)>(ks: seq<K>): seq<K> {
    DistinctBy(ks, Id)
  }

  /**
    `Distinct` holds each value of `ks` exactly once and lists the values in the order
    of their first appearance in `ks`.
   */
  lemma DistinctProps<K(!new)>(ks: seq<K>)
    ensures forall i, j :: 0 <= i < j < |Distinct(ks)| ==> Distinct(ks)[i] != Distinct(ks)[j]
    ensures forall k :: k in Distinct(ks) <==> k in ks
    ensures forall i, j :: 0 <= i < j < |Distinct(ks)| ==>
              FindIndex(ks, Id, Distinct(ks)[i]) < FindIndex(ks, Id, Distinct(ks)[j])
  {
    var r := Distinct(ks);
    DistinctByProps(ks, Id);
    forall k
      ensures k in r <==> k in ks
    {
      if k in r {
        var v :| 0 <= v < |r| && r[v] == k;
        assert Id(r[v]) == k;
        assert HasKey(r, Id, k);
        var w :| 0 <= w < |ks| && Id(ks[w]) == k;
      }
      if k in ks {
        var w :| 0 <= w < |ks| && ks[w] == k;
        assert Id(ks[w]) == k;
        assert HasKey(ks, Id, k);
        var v :| 0 <= v < |r| && Id(r[v]) == k;
      }
    }
  }

  /** Extending `ks` by one value extends `Distinct(ks)` by that value exactly when it is new. */
  lemma DistinctSnoc<K(!new)>(ks: seq<K>, k: K)
    ensures Distinct(ks + [k]) == Distinct(ks) + (if k in ks then [] else [k])
  {
    DistinctBySnoc(ks, k, Id);
    if k in ks {
      var w :| 0 <= w < |ks| && ks[w] == k;
      assert Id(ks[w]) == Id(k);
    }
  }

  /** A group of elements sharing `key`, as one entry of `Record<K, T[]>`. */
  datatype Group<K, T> = Group(key: K, members: seq<T>)

  /** `s.map(key)` */
  function Keys<T, K>(s: seq<T>, key: T -> K): (ks: seq<K>)
    ensures |ks| == |s| && forall i :: 0 <= i < |s| ==> ks[i] == key(s[i])
  {
    seq(|s|, i requires 0 <= i < |s| => key(s[i]))
  }

  /** The keys of a list of groups, in order. */
  function GroupKeys<K, T>(gs: seq<Group<K, T>>): (ks: seq<K>)
    ensures |ks| == |gs| && forall i :: 0 <= i < |gs| ==> ks[i] == gs[i].key
  {
    seq(|gs|, i requires 0 <= i < |gs| => gs[i].key)
  }

  /** The test `x => key(x) === k`. */
  function KeyIs<T, K(==)>(key: T -> K, k: K): T -> bool {
    x => key(x) == k
  }

  /**
    The reference grouping: one group per distinct key, in the order in which the keys
    first occur, each holding the elements with that key in their original order.
   */
  function GroupBy<T(==,!new), K(==)>(s: seq<T>, key: T -> K): seq<Group<K, T>> {
    var ks := Distinct(Keys(s, key));
    seq(|ks|, i requires 0 <= i < |ks| => Group(ks[i], Filter(s, KeyIs(key, ks[i]))))
  }

  /**
    One step of grouping by reduction, `(acc[k] ||= []).push(x)`: appends `x` to the
    group keyed `k`, or opens a new last group for `k` when there is none.
   */
  function AddToGroup<K(==), T>(gs: seq<Group<K, T>>, k: K, x: T): seq<Group<K, T>>
    decreases |gs|
  {
    if gs == [] then [Group(k, [x])]
    else if gs[0].key == k then [Group(k, gs[0].members + [x])] + gs[1..]
    else [gs[0]] + AddToGroup(gs[1..], k, x)
  }

  /** The members of all groups, group after group. */
  function Flatten<K, T>(gs: seq<Group<K, T>>): seq<T>
    decreases |gs|
  {
    if gs == [] then [] else gs[0].members + Flatten(gs[1..])
  }

  /** `AddToGroup` on a new key opens a last group holding just `x`. */
  lemma {:induction false} AddToGroupNewKey<K(!new), T(!new)>(gs: seq<Group<K, T>>, k: K, x: T)
    requires k !in GroupKeys(gs)
    ensures AddToGroup(gs, k, x) == gs + [Group(k, [x])]
    decreases |gs|
  {
    if gs != [] {
      assert gs[0].key == GroupKeys(gs)[0];
      assert GroupKeys(gs[1..]) == GroupKeys(gs)[1..];
      AddToGroupNewKey(gs[1..], k, x);
    }
  }

  /** `AddToGroup` on a key held by group `j` (and no earlier group) appends `x` to that group only. */
  lemma {:induction false} AddToGroupOldKey<K(!new), T(!new)>(gs: seq<Group<K, T>>, k: K, x: T, j: nat)
    requires j < |gs| && gs[j].key == k
    requires forall i :: 0 <= i < j ==> gs[i].key != k
    ensures AddToGroup(gs, k, x) == gs[j := Group(k, gs[j].members + [x])]
    decreases |gs|
  {
    if j > 0 {
      AddToGroupOldKey(gs[1..], k, x, j - 1);
    }
  }

  /** `AddToGroup` adds `x` to the flattened groups and nothing else. */
  lemma {:induction false} AddToGroupMultiset<K(!new), T(!new)>(gs: seq<Group<K, T>>, k: K, x: T)
    ensures multiset(Flatten(AddToGroup(gs, k, x))) == multiset(Flatten(gs)) + multiset{x}
    decreases |gs|
  {
    if gs != [] && gs[0].key != k {
      AddToGroupMultiset(gs[1..], k, x);
    }
  }

  /** The elements with key `k` of a longer sequence: the earlier ones, then `x` if its key is `k`. */
  lemma FilterKeySnoc<T(!new), K(!new)>(s: seq<T>, x: T, key: T -> K, k: K)
    ensures Filter(s + [x], KeyIs(key, k)) == Filter(s, KeyIs(key, k)) + (if key(x) == k then [x] else [])
  {
    FilterConcat(s, [x], KeyIs(key, k));
    assert Filter([x], KeyIs(key, k)) == (if key(x) == k then [x] else []) by {
      assert [x][1..] == [];
    }
  }

  /** No element has a key that does not occur among the keys. */
  lemma FilterKeyAbsent<T(!new), K(!new)>(s: seq<T>, key: T -> K, k: K)
    requires k !in Keys(s, key)
    ensures Filter(s, KeyIs(key, k)) == []
  {
  }

  /** `GroupBySnoc` when the key of `x` already occurs: `x` joins the existing group. */
  lemma GroupBySnocOldKey<T(!new), K(!new)>(s: seq<T>, x: T, key: T -> K)
    requires key(x) in Keys(s, key)
    ensures GroupBy(s + [x], key) == AddToGroup(GroupBy(s, key), key(x), x)
  {
    var kx := key(x);
    var ks := Distinct(Keys(s, key));
    assert Keys(s + [x], key) == Keys(s, key) + [kx];
    DistinctSnoc(Keys(s, key), kx);
    DistinctProps(Keys(s, key));
    var gs, gs' := GroupBy(s, key), GroupBy(s + [x], key);
    assert Distinct(Keys(s + [x], key)) == ks;
    var j :| 0 <= j < |ks| && ks[j] == kx;
    AddToGroupOldKey(gs, kx, x, j);
    forall i | 0 <= i < |ks|
      ensures gs'[i] == gs[j := Group(kx, gs[j].members + [x])][i]
    {
      FilterKeySnoc(s, x, key, ks[i]);
    }
  }

  /** `GroupBySnoc` when the key of `x` is new: a last group holding just `x` opens. */
  lemma GroupBySnocNewKey<T(!new), K(!new)>(s: seq<T>, x: T, key: T -> K)
    requires key(x) !in Keys(s, key)
    ensures GroupBy(s + [x], key) == AddToGroup(GroupBy(s, key), key(x), x)
  {
    var kx := key(x);
    var ks := Distinct(Keys(s, key));
    assert Keys(s + [x], key) == Keys(s, key) + [kx];
    DistinctSnoc(Keys(s, key), kx);
    DistinctProps(Keys(s, key));
    var gs, gs' := GroupBy(s, key), GroupBy(s + [x], key);
    assert Distinct(Keys(s + [x], key)) == ks + [kx];
    assert kx !in GroupKeys(gs);
    AddToGroupNewKey(gs, kx, x);
    forall i | 0 <= i < |ks| + 1
      ensures gs'[i] == (gs + [Group(kx, [x])])[i]
    {
      FilterKeySnoc(s, x, key, (ks + [kx])[i]);
      if i == |ks| {
        FilterKeyAbsent(s, key, kx);
      }
    }
  }

  /** Grouping a longer sequence is the earlier grouping with one `AddToGroup` step. */
  lemma GroupBySnoc<T(!new), K(!new)>(s: seq<T>, x: T, key: T -> K)
    ensures GroupBy(s + [x], key) == AddToGroup(GroupBy(s, key), key(x), x)
  {
    if key(x) in Keys(s, key) {
      GroupBySnocOldKey(s, x, key);
    } else {
      GroupBySnocNewKey(s, x, key);
    }
  }

  /** The groups together hold exactly the grouped elements: a permutation of the input. */
  lemma {:induction false} GroupByPermutation<T(!new), K(!new)>(s: seq<T>, key: T -> K)
    ensures multiset(Flatten(GroupBy(s, key))) == multiset(s)
    decreases |s|
  {
    if s != [] {
      var s', x := s[..|s| - 1], s[|s| - 1];
      assert s == s' + [x];
      GroupByPermutation(s', key);
      GroupBySnoc(s', x, key);
      AddToGroupMultiset(GroupBy(s', key), key(x), x);
    }
  }

  /**
    Each group is non-empty, holds exactly the elements with its key in their original
    order, and no two groups share a key.
   */
  lemma GroupByProps<T(!new), K(!new)>(s: seq<T>, key: T -> K)
    ensures forall i :: 0 <= i < |GroupBy(s, key)| ==> GroupBy(s, key)[i].members != []
    ensures forall i, x :: 0 <= i < |GroupBy(s, key)| ==>
              (x in GroupBy(s, key)[i].members <==> x in s && key(x) == GroupBy(s, key)[i].key)
    ensures forall i :: 0 <= i < |GroupBy(s, key)| ==> Subsequence(GroupBy(s, key)[i].members, s)
    ensures forall i, j :: 0 <= i < j < |GroupBy(s, key)| ==> GroupBy(s, key)[i].key != GroupBy(s, key)[j].key
    ensures forall x :: x in s ==> key(x) in GroupKeys(GroupBy(s, key))
  {
    var ks := Distinct(Keys(s, key));
    var gs := GroupBy(s, key);
    DistinctProps(Keys(s, key));
    forall i | 0 <= i < |gs|
      ensures forall x :: x in gs[i].members <==> x in s && key(x) == gs[i].key
    {
      FilterMembers(s, KeyIs(key, ks[i]));
    }
    forall i | 0 <= i < |gs|
      ensures gs[i].members != []
      ensures Subsequence(gs[i].members, s)
    {
      FilterIsSubsequence(s, KeyIs(key, ks[i]));
      FilterMembers(s, KeyIs(key, ks[i]));
      assert ks[i] in Keys(s, key);
      var w :| 0 <= w < |s| && Keys(s, key)[w] == ks[i];
      assert s[w] in gs[i].members;
    }
    forall x | x in s
      ensures key(x) in GroupKeys(gs)
    {
      var w :| 0 <= w < |s| && s[w] == x;
      assert Keys(s, key)[w] == key(x);
      assert key(x) in ks;
      var v :| 0 <= v < |ks| && ks[v] == key(x);
      assert GroupKeys(gs)[v] == key(x);
    }
  }
}
