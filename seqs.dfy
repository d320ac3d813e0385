/** Order-preserving list operations used throughout the pipeline: Python's
    append-loops guarded by a predicate or a seen-set, `list.remove`, list
    comprehensions that drop one value, and the stable `list.sort`. */
module Seqs {

  /** No value occurs twice (Python: `len(set(s)) == len(s)`). */
  predicate NoDup<T(==)>(s: seq<T>) {
    forall i, j :: 0 <= i < j < |s| ==> s[i] != s[j]
  }

  function Elems<T>(s: seq<T>): set<T> {
    set x | x in s
  }

  /** `a` is `b` with some elements deleted, order kept. */
  predicate IsSubseq<T(==)>(a: seq<T>, b: seq<T>)
    decreases |b|
  {
    a == [] ||
    (b != [] &&
     ((a[|a| - 1] == b[|b| - 1] && IsSubseq(a[..|a| - 1], b[..|b| - 1])) ||
      IsSubseq(a, b[..|b| - 1])))
  }

  lemma {:induction false} SubseqElements<T>(a: seq<T>, b: seq<T>)
    requires IsSubseq(a, b)
    ensures |a| <= |b|
    ensures forall x :: x in a ==> x in b
    decreases |b|
  {
    if a != [] {
      if a[|a| - 1] == b[|b| - 1] && IsSubseq(a[..|a| - 1], b[..|b| - 1]) {
        SubseqElements(a[..|a| - 1], b[..|b| - 1]);
        assert a == a[..|a| - 1] + [a[|a| - 1]];
        assert b == b[..|b| - 1] + [b[|b| - 1]];
      } else {
        SubseqElements(a, b[..|b| - 1]);
      }
    }
  }

  lemma {:induction false} SubseqRefl<T>(a: seq<T>)
    ensures IsSubseq(a, a)
    decreases |a|
  {
    if a != [] {
      SubseqRefl(a[..|a| - 1]);
    }
  }

  /** The elements of `s` that satisfy `p`, in their order in `s`. */
  function Filter<T(!new)>(s: seq<T>, p: T -> bool): (r: seq<T>)
    ensures |r| <= |s|
    ensures forall x :: x in r <==> x in s && p(x)
  {
    if s == [] then []
    else
      var init := Filter(s[..|s| - 1], p);
      assert forall x :: x in s <==> x in s[..|s| - 1] || x == s[|s| - 1] by {
        assert s == s[..|s| - 1] + [s[|s| - 1]];
      }
      if p(s[|s| - 1]) then init + [s[|s| - 1]] else init
  }

  lemma {:induction false} FilterSubseq<T(!new)>(s: seq<T>, p: T -> bool)
    ensures IsSubseq(Filter(s, p), s)
    decreases |s|
  {
    if s != [] {
      FilterSubseq(s[..|s| - 1], p);
      var init := Filter(s[..|s| - 1], p);
      if p(s[|s| - 1]) {
        assert (init + [s[|s| - 1]])[..|init|] == init;
      }
    }
  }

  /** How often each value survives: all its occurrences if it passes, none otherwise. */
  lemma {:induction false} FilterMultiplicity<T(!new)>(s: seq<T>, p: T -> bool, x: T)
    ensures multiset(Filter(s, p))[x] == if p(x) then multiset(s)[x] else 0
    decreases |s|
  {
    if s != [] {
      FilterMultiplicity(s[..|s| - 1], p, x);
      assert s == s[..|s| - 1] + [s[|s| - 1]];
    }
  }

  /** The test of `[c for c in s if c != x]`. */
  function Except<T(==)>(x: T): T -> bool {
    y => y != x
  }

  /** Removing every copy of an element of a list without repeats, then
      putting it back in front, permutes the list. */
  lemma ExceptPermutes<T(!new)>(s: seq<T>, x: T)
    requires NoDup(s) && x in s
    ensures multiset([x] + Filter(s, Except(x))) == multiset(s)
  {
    forall y ensures multiset([x] + Filter(s, Except(x)))[y] == multiset(s)[y] {
      FilterMultiplicity(s, Except(x), y);
      NoDupMultiplicity(s, y);
    }
  }

  /** Extending a prefix by one element. */
  lemma TakeSnoc<T>(s: seq<T>, i: nat)
    requires i < |s|
    ensures s[..i + 1] == s[..i] + [s[i]]
  {
  }

  lemma FilterAppendOne<T(!new)>(s: seq<T>, p: T -> bool, x: T)
    ensures Filter(s + [x], p) == Filter(s, p) + (if p(x) then [x] else [])
  {
    assert (s + [x])[..|s|] == s;
  }

  lemma {:induction false} FilterConcat<T(!new)>(a: seq<T>, b: seq<T>, p: T -> bool)
    ensures Filter(a + b, p) == Filter(a, p) + Filter(b, p)
    decreases |b|
  {
    if b == [] {
      assert a + b == a;
    } else {
      var b', x := b[..|b| - 1], b[|b| - 1];
      var last := if p(x) then [x] else [];
      assert b == b' + [x];
      calc {
        Filter(a + b, p);
        { assert a + b == (a + b') + [x]; }
        Filter((a + b') + [x], p);
        { FilterAppendOne(a + b', p, x); }
        Filter(a + b', p) + last;
        { FilterConcat(a, b', p); }
        (Filter(a, p) + Filter(b', p)) + last;
        { FilterAppendOne(b', p, x); }
        Filter(a, p) + Filter(b, p);
      }
    }
  }

  lemma FilterNoDup<T(!new)>(s: seq<T>, p: T -> bool)
    requires NoDup(s)
    ensures NoDup(Filter(s, p))
  {
    var r := Filter(s, p);
    forall x | x in r ensures multiset(r)[x] <= 1 {
      FilterMultiplicity(s, p, x);
      NoDupMultiplicity(s, x);
    }
    MultiplicityNoDup(r);
  }

  lemma {:induction false} NoDupMultiplicity<T>(s: seq<T>, x: T)
    requires NoDup(s)
    ensures multiset(s)[x] <= 1
    decreases |s|
  {
    if s != [] {
      var s' := s[..|s| - 1];
      NoDupMultiplicity(s', x);
      assert s == s' + [s[|s| - 1]];
      if x == s[|s| - 1] {
        assert x !in s';
      }
    }
  }

  lemma {:induction false} MultiplicityNoDup<T>(s: seq<T>)
    requires forall x :: x in s ==> multiset(s)[x] <= 1
    ensures NoDup(s)
    decreases |s|
  {
    if s != [] {
      var s' := s[..|s| - 1];
      var last := s[|s| - 1];
      assert s == s' + [last];
      assert multiset(s) == multiset(s') + multiset{last};
      forall y | y in s' ensures multiset(s')[y] <= 1 {
        assert y in s;
      }
      MultiplicityNoDup(s');
      assert last in s;
      assert multiset(s')[last] == 0;
      assert last !in s';
    }
  }

  /** A permutation of a duplicate-free list is duplicate-free. */
  lemma PermutationNoDup<T>(a: seq<T>, b: seq<T>)
    requires NoDup(a) && multiset(a) == multiset(b)
    ensures NoDup(b)
  {
    forall x | x in b ensures multiset(b)[x] <= 1 {
      NoDupMultiplicity(a, x);
    }
    MultiplicityNoDup(b);
  }

  /** A duplicate-free list has as many elements as distinct values. */
  lemma {:induction false} NoDupCardinality<T>(s: seq<T>)
    requires NoDup(s)
    ensures |Elems(s)| == |s|
    decreases |s|
  {
    if s != [] {
      var s' := s[..|s| - 1];
      NoDupCardinality(s');
      assert s == s' + [s[|s| - 1]];
      assert Elems(s) == Elems(s') + {s[|s| - 1]};
      assert s[|s| - 1] !in Elems(s');
    }
  }

  lemma ElemsSnoc<T>(s: seq<T>, x: T)
    ensures Elems(s + [x]) == Elems(s) + {x}
  {
    assert forall y :: y in s + [x] <==> y in s || y == x;
  }

  /** Appending a value not yet present keeps the list duplicate-free. */
  lemma NoDupSnoc<T>(s: seq<T>, x: T)
    requires NoDup(s) && x !in s
    ensures NoDup(s + [x])
  {
    var r := s + [x];
    forall i, j | 0 <= i < j < |r| ensures r[i] != r[j] {
      if j == |s| {
        assert r[i] == s[i];
      } else {
        assert r[i] == s[i] && r[j] == s[j];
      }
    }
  }

  /** Overwriting one slot with a value not yet present keeps the list
      duplicate-free. */
  lemma NoDupUpdate<T>(s: seq<T>, k: nat, x: T)
    requires k < |s| && x !in s
    ensures NoDup(s) ==> NoDup(s[k := x])
    ensures Elems(s[k := x]) <= Elems(s) + {x}
  {
    var r := s[k := x];
    forall y | y in r ensures y in Elems(s) + {x} {
      var i :| 0 <= i < |r| && r[i] == y;
      if i != k {
        assert y == s[i];
      }
    }
  }

  /** Python's `s.remove(x)`: drops the first occurrence of `x` and keeps
      the other elements in their order. */
  function RemoveFirst<T(==)>(s: seq<T>, x: T): (r: seq<T>)
    requires x in s
    ensures |r| == |s| - 1
    ensures multiset(r) == multiset(s) - multiset{x}
    ensures exists i :: 0 <= i < |s| && s[i] == x && x !in s[..i] && r == s[..i] + s[i + 1..]
  {
    assert s == [s[0]] + s[1..];
    if s[0] == x then
      assert s[..0] + s[1..] == s[1..];
      s[1..]
    else
      var r := RemoveFirst(s[1..], x);
      RemoveLater(s, x, r);
      [s[0]] + r
  }

  /** When the head is not `x`, removing the first `x` from the tail and
      putting the head back removes the first `x` from the whole sequence. */
  lemma RemoveLater<T>(s: seq<T>, x: T, r: seq<T>)
    requires |s| > 0 && s[0] != x
    requires exists i :: 0 <= i < |s[1..]| && s[1..][i] == x && x !in s[1..][..i] && r == s[1..][..i] + s[1..][i + 1..]
    ensures exists i :: 0 <= i < |s| && s[i] == x && x !in s[..i] && [s[0]] + r == s[..i] + s[i + 1..]
  {
    var i :| 0 <= i < |s[1..]| && s[1..][i] == x && x !in s[1..][..i] && r == s[1..][..i] + s[1..][i + 1..];
    var front, back, j := s[1..][..i], s[1..][i + 1..], i + 1;
    assert s[..j] == [s[0]] + front;
    assert s[j + 1..] == back;
    assert x !in s[..j] by {
      assert x !in front && x != s[0];
    }
    assert [s[0]] + r == s[..j] + s[j + 1..] by {
      assert [s[0]] + (front + back) == ([s[0]] + front) + back;
    }
    assert s[j] == x;
  }

  /** One key per element, e.g. the hex or the (hex, category) pair of a record. */
  function KeySet<T, K(==)>(s: seq<T>, key: T -> K): (ks: set<K>)
    ensures forall i :: 0 <= i < |s| ==> key(s[i]) in ks
    ensures forall k :: k in ks ==> exists i :: 0 <= i < |s| && key(s[i]) == k
  {
    set i | 0 <= i < |s| :: key(s[i])
  }

  lemma KeySetAppend<T, K>(s: seq<T>, x: T, key: T -> K)
    ensures KeySet(s + [x], key) == KeySet(s, key) + {key(x)}
  {
    var u := s + [x];
    forall k | k in KeySet(u, key) ensures k in KeySet(s, key) + {key(x)} {
      var i :| 0 <= i < |u| && key(u[i]) == k;
      if i < |s| {
        assert u[i] == s[i];
      }
    }
    forall k | k in KeySet(s, key) + {key(x)} ensures k in KeySet(u, key) {
      if k != key(x) {
        var i :| 0 <= i < |s| && key(s[i]) == k;
        assert u[i] == s[i];
      } else {
        assert u[|s|] == x;
      }
    }
  }

  /** Python's seen-set loop: keep an element only if no earlier element had its key. */
  function DedupBy<T, K(==)>(s: seq<T>, key: T -> K): (r: seq<T>)
    ensures DistinctKeys(r, key)
    ensures KeySet(r, key) == KeySet(s, key)
  {
    if s == [] then []
    else
      var init := s[..|s| - 1];
      var x := s[|s| - 1];
      var d := DedupBy(init, key);
      assert KeySet(s, key) == KeySet(init, key) + {key(x)};
      if key(x) in KeySet(init, key) then d
      else
        KeySetAppend(d, x, key);
        d + [x]
  }

  lemma {:induction false} DedupSubseq<T, K>(s: seq<T>, key: T -> K)
    ensures IsSubseq(DedupBy(s, key), s)
    decreases |s|
  {
    if s != [] {
      var init := s[..|s| - 1];
      DedupSubseq(init, key);
      var d := DedupBy(init, key);
      if key(s[|s| - 1]) !in KeySet(init, key) {
        assert (d + [s[|s| - 1]])[..|d|] == d;
      }
    }
  }

  /** `s[k]` is the first element of `s` carrying its key. */
  predicate FirstWithKey<T, K(==)>(s: seq<T>, key: T -> K, k: int) {
    0 <= k < |s| && forall j :: 0 <= j < k ==> key(s[j]) != key(s[k])
  }

  lemma FirstWithKeyExtends<T, K>(s: seq<T>, n: nat, key: T -> K, k: int)
    requires n <= |s| && FirstWithKey(s[..n], key, k)
    ensures FirstWithKey(s, key, k) && s[k] == s[..n][k]
  {
    assert forall j :: 0 <= j <= k ==> s[j] == s[..n][j];
  }

  /** Every kept element is the first element of `s` carrying its key. */
  lemma {:induction false} DedupKeepsFirst<T, K>(s: seq<T>, key: T -> K, i: nat)
    requires i < |DedupBy(s, key)|
    ensures exists k :: FirstWithKey(s, key, k) && s[k] == DedupBy(s, key)[i]
    decreases |s|
  {
    var init := s[..|s| - 1];
    var x := s[|s| - 1];
    var d := DedupBy(init, key);
    var r := DedupBy(s, key);
    assert r == if key(x) in KeySet(init, key) then d else d + [x];
    if i < |d| {
      assert r[i] == d[i];
      DedupKeepsFirst(init, key, i);
      var k :| FirstWithKey(init, key, k) && init[k] == d[i];
      FirstWithKeyExtends(s, |s| - 1, key, k);
    } else {
      assert r == d + [x] && i == |d|;
      var k := |s| - 1;
      forall j | 0 <= j < k ensures key(s[j]) != key(s[k]) {
        assert s[j] == init[j];
      }
      assert FirstWithKey(s, key, k);
    }
  }

  lemma DedupAppendOne<T, K>(s: seq<T>, key: T -> K, x: T)
    ensures DedupBy(s + [x], key) ==
            if key(x) in KeySet(s, key) then DedupBy(s, key) else DedupBy(s, key) + [x]
  {
    assert (s + [x])[..|s|] == s;
  }

  /** No two elements share a key. */
  predicate DistinctKeys<T, K(==)>(s: seq<T>, key: T -> K) {
    forall i, j :: 0 <= i < j < |s| ==> key(s[i]) != key(s[j])
  }

  /** Deleting elements keeps the keys distinct. */
  lemma {:induction false} SubseqDistinctKeys<T, K>(a: seq<T>, b: seq<T>, key: T -> K)
    requires IsSubseq(a, b) && DistinctKeys(b, key)
    ensures DistinctKeys(a, key)
    decreases |b|
  {
    if a != [] {
      var a', b' := a[..|a| - 1], b[..|b| - 1];
      assert DistinctKeys(b', key);
      if a[|a| - 1] == b[|b| - 1] && IsSubseq(a', b') {
        SubseqDistinctKeys(a', b', key);
        SubseqElements(a', b');
        forall i | 0 <= i < |a'| ensures key(a'[i]) != key(a[|a| - 1]) {
          assert a'[i] in b';
          var k :| 0 <= k < |b'| && b'[k] == a'[i];
          assert b[k] == b'[k];
        }
        forall i, j | 0 <= i < j < |a| ensures key(a[i]) != key(a[j]) {
          assert a[i] == a'[i];
          if j < |a| - 1 {
            assert a[j] == a'[j];
          }
        }
      } else {
        SubseqDistinctKeys(a, b', key);
      }
    }
  }

  /** A subsequence of a subsequence is a subsequence. */
  lemma {:induction false} SubseqTrans<T>(a: seq<T>, b: seq<T>, c: seq<T>)
    requires IsSubseq(a, b) && IsSubseq(b, c)
    ensures IsSubseq(a, c)
    decreases |c|
  {
    if a != [] {
      var a', b', c' := a[..|a| - 1], b[..|b| - 1], c[..|c| - 1];
      if b[|b| - 1] == c[|c| - 1] && IsSubseq(b', c') {
        if a[|a| - 1] == b[|b| - 1] && IsSubseq(a', b') {
          SubseqTrans(a', b', c');
        } else {
          SubseqTrans(a, b', c');
        }
      } else {
        SubseqTrans(a, b, c');
      }
    }
  }

  /** `rel` holds of every pair of elements in their order in `s`. */
  predicate Pairwise<T>(s: seq<T>, rel: (T, T) -> bool) {
    forall i, j :: 0 <= i < j < |s| ==> rel(s[i], s[j])
  }

  /** Deleting elements keeps every pairwise relation between the rest. */
  lemma {:induction false} SubseqPairwise<T>(a: seq<T>, b: seq<T>, rel: (T, T) -> bool)
    requires IsSubseq(a, b) && Pairwise(b, rel)
    ensures Pairwise(a, rel)
    decreases |b|
  {
    if a != [] {
      var a', b' := a[..|a| - 1], b[..|b| - 1];
      assert Pairwise(b', rel);
      if a[|a| - 1] == b[|b| - 1] && IsSubseq(a', b') {
        SubseqPairwise(a', b', rel);
        SubseqElements(a', b');
        forall i | 0 <= i < |a'| ensures rel(a'[i], a[|a| - 1]) {
          assert a'[i] in b';
          var k :| 0 <= k < |b'| && b'[k] == a'[i];
          assert b[k] == b'[k];
        }
        forall i, j | 0 <= i < j < |a| ensures rel(a[i], a[j]) {
          assert a[i] == a'[i];
          if j < |a| - 1 {
            assert a[j] == a'[j];
          }
        }
      } else {
        SubseqPairwise(a, b', rel);
      }
    }
  }

  /** The seen-set loop keeps everything when no key repeats. */
  lemma {:induction false} DedupDistinct<T, K>(s: seq<T>, key: T -> K)
    requires DistinctKeys(s, key)
    ensures DedupBy(s, key) == s
    decreases |s|
  {
    if s != [] {
      var init, x := s[..|s| - 1], s[|s| - 1];
      assert DistinctKeys(init, key);
      DedupDistinct(init, key);
      assert key(x) !in KeySet(init, key) by {
        forall i | 0 <= i < |init| ensures key(init[i]) != key(x) {
          assert init[i] == s[i];
        }
      }
      assert init + [x] == s;
    }
  }

  /** Two lists holding the same elements have the same keys. */
  lemma KeySetPermutation<T, K>(a: seq<T>, b: seq<T>, key: T -> K)
    requires multiset(a) == multiset(b)
    ensures KeySet(a, key) == KeySet(b, key)
  {
    forall k | k in KeySet(a, key) ensures k in KeySet(b, key) {
      var i :| 0 <= i < |a| && key(a[i]) == k;
      assert a[i] in multiset(b);
      var j :| 0 <= j < |b| && b[j] == a[i];
    }
    forall k | k in KeySet(b, key) ensures k in KeySet(a, key) {
      var j :| 0 <= j < |b| && key(b[j]) == k;
      assert b[j] in multiset(a);
      var i :| 0 <= i < |a| && a[i] == b[j];
    }
  }

  /** `le` is a total preorder: the comparison a stable key sort needs. */
  ghost predicate TotalPreorder<T(!new)>(le: (T, T) -> bool) {
    (forall a, b :: le(a, b) || le(b, a)) &&
    (forall a, b, c :: le(a, b) && le(b, c) ==> le(a, c))
  }

  predicate SortedBy<T>(s: seq<T>, le: (T, T) -> bool) {
    forall i, j :: 0 <= i < j < |s| ==> le(s[i], s[j])
  }

  /** Inserts `x` behind every element of `t` that is not after it. */
  function InsertBy<T>(t: seq<T>, x: T, le: (T, T) -> bool): (r: seq<T>)
    ensures |r| == |t| + 1
  {
    if t == [] then [x]
    else if le(t[|t| - 1], x) then t + [x]
    else InsertBy(t[..|t| - 1], x, le) + [t[|t| - 1]]
  }

  /** Insertion sort; the model of Python's stable `list.sort` with a key. */
  function SortBy<T>(s: seq<T>, le: (T, T) -> bool): (r: seq<T>)
    ensures |r| == |s|
  {
    if s == [] then []
    else InsertBy(SortBy(s[..|s| - 1], le), s[|s| - 1], le)
  }

  lemma {:induction false} InsertByPermutes<T>(t: seq<T>, x: T, le: (T, T) -> bool)
    ensures multiset(InsertBy(t, x, le)) == multiset(t) + multiset{x}
    decreases |t|
  {
    if t != [] && !le(t[|t| - 1], x) {
      InsertByPermutes(t[..|t| - 1], x, le);
      assert t == t[..|t| - 1] + [t[|t| - 1]];
    }
  }

  lemma {:induction false} SortByPermutes<T>(s: seq<T>, le: (T, T) -> bool)
    ensures multiset(SortBy(s, le)) == multiset(s)
    decreases |s|
  {
    if s != [] {
      SortByPermutes(s[..|s| - 1], le);
      InsertByPermutes(SortBy(s[..|s| - 1], le), s[|s| - 1], le);
      assert s == s[..|s| - 1] + [s[|s| - 1]];
    }
  }

  lemma {:induction false} InsertBySorted<T(!new)>(t: seq<T>, x: T, le: (T, T) -> bool)
    requires TotalPreorder(le) && SortedBy(t, le)
    ensures SortedBy(InsertBy(t, x, le), le)
    ensures t != [] && !le(t[|t| - 1], x) ==> InsertBy(t, x, le)[|t|] == t[|t| - 1]
    decreases |t|
  {
    if t != [] && !le(t[|t| - 1], x) {
      var t' := t[..|t| - 1];
      var l := t[|t| - 1];
      InsertBySorted(t', x, le);
      var u := InsertBy(t', x, le);
      assert le(x, l);
      InsertByPermutes(t', x, le);
      assert multiset(u) == multiset(t') + multiset{x};
      forall i | 0 <= i < |u| ensures le(u[i], l) {
        assert u[i] in multiset(u);
        if u[i] != x {
          assert u[i] in multiset(t');
          var k :| 0 <= k < |t'| && t'[k] == u[i];
          assert t[k] == t'[k];
        }
      }
    }
  }

  lemma {:induction false} SortBySorted<T(!new)>(s: seq<T>, le: (T, T) -> bool)
    requires TotalPreorder(le)
    ensures SortedBy(SortBy(s, le), le)
    decreases |s|
  {
    if s != [] {
      SortBySorted(s[..|s| - 1], le);
      InsertBySorted(SortBy(s[..|s| - 1], le), s[|s| - 1], le);
    }
  }

  /** Elements that compare equal to `e` both ways: one tie class of the sort key. */
  predicate Tied<T>(le: (T, T) -> bool, e: T, y: T) {
    le(e, y) && le(y, e)
  }

  lemma FilterSingleton<T(!new)>(x: T, p: T -> bool)
    ensures Filter([x], p) == if p(x) then [x] else []
  {
    assert [x][..0] == [];
  }

  /** The tie class of `e` as a predicate. */
  function TieClass<T>(le: (T, T) -> bool, e: T): T -> bool {
    y => Tied(le, e, y)
  }

  /** Moving one element `l` that is not in the class `q` (or whose partner
      `x` is not) past `x` keeps the class's order. */
  lemma SwapPast<T(!new)>(u: seq<T>, t: seq<T>, l: T, x: T, q: T -> bool)
    requires Filter(u, q) == Filter(t, q) + Filter([x], q)
    requires !(q(x) && q(l))
    ensures Filter(u + [l], q) == Filter(t + [l], q) + Filter([x], q)
  {
    FilterAppendOne(u, q, l);
    FilterAppendOne(t, q, l);
    FilterSingleton(x, q);
    if q(l) {
      assert Filter([x], q) == [];
      assert Filter(u, q) == Filter(t, q) + [];
      assert Filter(t, q) + [] == Filter(t, q);
    } else {
      assert Filter(u + [l], q) == Filter(u, q) + [];
      assert Filter(t + [l], q) == Filter(t, q) + [];
    }
  }

  lemma {:induction false} InsertByStable<T(!new)>(t: seq<T>, x: T, le: (T, T) -> bool, e: T)
    requires TotalPreorder(le)
    ensures Filter(InsertBy(t, x, le), TieClass(le, e)) ==
            Filter(t, TieClass(le, e)) + Filter([x], TieClass(le, e))
    decreases |t|
  {
    var q := TieClass(le, e);
    if t == [] {
      assert InsertBy(t, x, le) == [x];
      assert t + [x] == [x];
    } else if le(t[|t| - 1], x) {
      FilterConcat(t, [x], q);
    } else {
      var t', l := t[..|t| - 1], t[|t| - 1];
      assert t == t' + [l];
      assert le(l, e) && le(e, x) ==> le(l, x);
      InsertByStable(t', x, le, e);
      SwapPast(InsertBy(t', x, le), t', l, x, q);
    }
  }

  /** Stability: the elements tied with any `e` keep their input order. */
  lemma {:induction false} SortByStable<T(!new)>(s: seq<T>, le: (T, T) -> bool, e: T)
    requires TotalPreorder(le)
    ensures Filter(SortBy(s, le), TieClass(le, e)) == Filter(s, TieClass(le, e))
    decreases |s|
  {
    if s != [] {
      var q := TieClass(le, e);
      var s', x := s[..|s| - 1], s[|s| - 1];
      assert s == s' + [x];
      calc {
        Filter(SortBy(s, le), q);
        Filter(InsertBy(SortBy(s', le), x, le), q);
        { InsertByStable(SortBy(s', le), x, le, e); }
        Filter(SortBy(s', le), q) + Filter([x], q);
        { SortByStable(s', le, e); }
        Filter(s', q) + Filter([x], q);
        { FilterConcat(s', [x], q); }
        Filter(s, q);
      }
    }
  }
}
