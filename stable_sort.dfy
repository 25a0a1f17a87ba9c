/**
 * The sequence operations the pages apply to arrays: `filter`, `find` and a
 * stable `sort` of a copy.
 *
 * JavaScript's `Array.prototype.sort` is stable, and only the sign of the
 * comparator matters to it. Every comparator in the pages compares integer
 * tuples lexicographically (a version's three components; a score and then
 * a size, both descending; a relevance score), so a sort is modelled by a
 * key function into `seq<int>` and the lexicographic order `LexLe` on keys;
 * each use proves that its comparator's sign agrees with that order. The
 * insertion sort below is one stable sort. The lemmas state what every
 * stable sort returns: a sorted permutation (`SortSorted`, `Sort`'s
 * contract) that keeps the input order among equal keys (`SortStable`),
 * whose head is the earliest element with the least key (`SortHead`), and
 * whose first element satisfying a predicate is the earliest of the
 * least-keyed such elements (`SortFirstSatisfying`).
 */
module StableSort {
  import opened Text

  // ---------------------------------------------------------------------
  // filter and find

  /** `s.map(f)`: `f` applied to each element of `s`, in order. */
  function Map<A, B>(s: seq<A>, f: A -> B): (r: seq<B>)
    ensures |r| == |s| && forall i :: 0 <= i < |s| ==> r[i] == f(s[i])
  {
    seq(|s|, i requires 0 <= i < |s| => f(s[i]))
  }

  lemma MapAppend<A, B>(a: seq<A>, b: seq<A>, f: A -> B)
    ensures Map(a + b, f) == Map(a, f) + Map(b, f)
  {
  }

  /** `s.filter(p)`: the elements of `s` that satisfy `p`, in order. */
  function Filter<T>(s: seq<T>, p: T -> bool): (r: seq<T>)
    ensures |r| <= |s|
    decreases |s|
  {
    if s == [] then []
    else Filter(s[..|s| - 1], p) + (if p(s[|s| - 1]) then [s[|s| - 1]] else [])
  }

  /** Two predicates that agree on every element of `s` filter it alike. */
  lemma {:induction false} FilterAgree<T>(s: seq<T>, p: T -> bool, q: T -> bool)
    requires forall i :: 0 <= i < |s| ==> p(s[i]) == q(s[i])
    ensures Filter(s, p) == Filter(s, q)
    decreases |s|
  {
    if s != [] {
      FilterAgree(s[..|s| - 1], p, q);
    }
  }

  /** Every element of `Filter(s, p)` is an element of `s` that satisfies `p`. */
  lemma {:induction false} FilterSound<T>(s: seq<T>, p: T -> bool)
    ensures forall i :: 0 <= i < |Filter(s, p)| ==> Filter(s, p)[i] in s && p(Filter(s, p)[i])
    decreases |s|
  {
    if s != [] {
      var s' := s[..|s| - 1];
      FilterSound(s', p);
      assert s == s' + [s[|s| - 1]];
      assert forall y :: y in s' ==> y in s;
    }
  }

  /** Every element of `s` that satisfies `p` is in `Filter(s, p)`. */
  lemma {:induction false} FilterComplete<T>(s: seq<T>, p: T -> bool)
    ensures forall i :: 0 <= i < |s| && p(s[i]) ==> s[i] in Filter(s, p)
    decreases |s|
  {
    if s != [] {
      var s' := s[..|s| - 1];
      FilterComplete(s', p);
      forall i | 0 <= i < |s| && p(s[i]) ensures s[i] in Filter(s, p) {
        if i < |s| - 1 {
          assert s[i] == s'[i];
        }
      }
    }
  }

  /** Membership in `Filter(s, p)` is membership in `s` together with `p`. */
  lemma InFilter<T>(s: seq<T>, p: T -> bool)
    ensures forall x :: x in Filter(s, p) <==> x in s && p(x)
  {
    FilterSound(s, p);
    FilterComplete(s, p);
    forall x | x in Filter(s, p) ensures x in s && p(x) {
      var i :| 0 <= i < |Filter(s, p)| && Filter(s, p)[i] == x;
    }
    forall x | x in s && p(x) ensures x in Filter(s, p) {
      var i :| 0 <= i < |s| && s[i] == x;
    }
  }

  /** Membership in three nested filters. */
  lemma InFilter3<T>(s: seq<T>, p: T -> bool, q: T -> bool, r: T -> bool)
    ensures forall x :: x in Filter(Filter(Filter(s, p), q), r) <==> x in s && p(x) && q(x) && r(x)
  {
    InFilter(s, p);
    InFilter(Filter(s, p), q);
    InFilter(Filter(Filter(s, p), q), r);
  }

  /** Membership in four nested filters. */
  lemma InFilter4<T>(s: seq<T>, p: T -> bool, q: T -> bool, r: T -> bool, w: T -> bool)
    ensures forall x :: x in Filter(Filter(Filter(Filter(s, p), q), r), w) <==> x in s && p(x) && q(x) && r(x) && w(x)
  {
    InFilter(s, p);
    InFilter3(Filter(s, p), q, r, w);
  }

  lemma FilterSnoc<T>(s: seq<T>, x: T, p: T -> bool)
    ensures p(x) ==> Filter(s + [x], p) == Filter(s, p) + [x]
    ensures !p(x) ==> Filter(s + [x], p) == Filter(s, p)
  {
    assert (s + [x])[..|s|] == s;
    assert Filter(s, p) + [] == Filter(s, p);
  }

  lemma {:induction false} FilterAppend<T>(a: seq<T>, b: seq<T>, p: T -> bool)
    ensures Filter(a + b, p) == Filter(a, p) + Filter(b, p)
    decreases |b|
  {
    if b == [] {
      assert a + b == a;
    } else {
      var b' := b[..|b| - 1];
      var x := b[|b| - 1];
      assert a + b == (a + b') + [x];
      assert b == b' + [x];
      FilterSnoc(a + b', x, p);
      FilterSnoc(b', x, p);
      FilterAppend(a, b', p);
    }
  }

  /** `s.find(p)`, as the index of the first element of `s` that satisfies `p`. */
  function Find<T>(s: seq<T>, p: T -> bool): (r: Option<nat>)
    ensures r.Some? ==> r.value < |s| && p(s[r.value])
    ensures r.Some? ==> forall i :: 0 <= i < r.value ==> !p(s[i])
    ensures r.None? ==> forall i :: 0 <= i < |s| ==> !p(s[i])
    decreases |s|
  {
    if s == [] then None
    else if p(s[0]) then Some(0)
    else
      match Find(s[1..], p)
      case None => None
      case Some(i) => Some(i + 1)
  }

  lemma FilterNone<T>(s: seq<T>, p: T -> bool)
    requires forall i :: 0 <= i < |s| ==> !p(s[i])
    ensures Filter(s, p) == []
  {
    FilterSound(s, p);
  }

  /** The first element of `Filter(s, p)` is the first element of `s` that satisfies `p`. */
  lemma FilterFirst<T>(s: seq<T>, p: T -> bool, j: nat)
    requires j < |s| && p(s[j])
    requires forall i :: 0 <= i < j ==> !p(s[i])
    ensures |Filter(s, p)| > 0 && Filter(s, p)[0] == s[j]
  {
    var pre := s[..j];
    var post := s[j + 1..];
    assert s == (pre + [s[j]]) + post;
    FilterAppend(pre + [s[j]], post, p);
    FilterSnoc(pre, s[j], p);
    assert forall i :: 0 <= i < |pre| ==> !p(pre[i]);
    FilterNone(pre, p);
  }

  /** `s.some(p)` */
  function Any<T>(s: seq<T>, p: T -> bool): (r: bool)
    ensures r <==> exists i :: 0 <= i < |s| && p(s[i])
    decreases |s|
  {
    if s == [] then false
    else if p(s[0]) then true
    else
      var rest := Any(s[1..], p);
      assert forall i :: 1 <= i < |s| ==> s[i] == s[1..][i - 1];
      rest
  }

  /** The conjunction of two element predicates. */
  function Both<T>(p: T -> bool, q: T -> bool): T -> bool {
    x => p(x) && q(x)
  }

  lemma {:induction false} FilterFilter<T>(s: seq<T>, p: T -> bool, q: T -> bool)
    ensures Filter(Filter(s, p), q) == Filter(s, Both(p, q))
    decreases |s|
  {
    if s != [] {
      var s' := s[..|s| - 1];
      var x := s[|s| - 1];
      assert s == s' + [x];
      FilterFilter(s', p, q);
      FilterSnoc(s', x, p);
      FilterSnoc(s', x, Both(p, q));
      assert Both(p, q)(x) == (p(x) && q(x));
      if p(x) {
        FilterSnoc(Filter(s', p), x, q);
      } else {
        assert Filter(s, p) == Filter(s', p) + [] == Filter(s', p);
        assert Filter(s, Both(p, q)) == Filter(s', Both(p, q)) + [] == Filter(s', Both(p, q));
      }
    }
  }

  // ---------------------------------------------------------------------
  // The lexicographic order on integer tuples

  predicate LexLe(a: seq<int>, b: seq<int>)
    decreases |a|
  {
    a == [] || (b != [] && (a[0] < b[0] || (a[0] == b[0] && LexLe(a[1..], b[1..]))))
  }

  lemma {:induction false} LexLeTotal(a: seq<int>, b: seq<int>)
    ensures LexLe(a, b) || LexLe(b, a)
    decreases |a|
  {
    if a != [] && b != [] && a[0] == b[0] {
      LexLeTotal(a[1..], b[1..]);
    }
  }

  lemma {:induction false} LexLeAntisymmetric(a: seq<int>, b: seq<int>)
    requires LexLe(a, b) && LexLe(b, a)
    ensures a == b
    decreases |a|
  {
    if a != [] {
      LexLeAntisymmetric(a[1..], b[1..]);
      assert a == [a[0]] + a[1..] && b == [b[0]] + b[1..];
    }
  }

  lemma {:induction false} LexLeTransitive(a: seq<int>, b: seq<int>, c: seq<int>)
    requires LexLe(a, b) && LexLe(b, c)
    ensures LexLe(a, c)
    decreases |a|
  {
    if a != [] && a[0] == b[0] && b[0] == c[0] {
      LexLeTransitive(a[1..], b[1..], c[1..]);
    }
  }

  /** `LexLe` on tuples with a first component. */
  lemma LexLeCons(x: int, a: seq<int>, y: int, b: seq<int>)
    ensures LexLe([x] + a, [y] + b) <==> x < y || (x == y && LexLe(a, b))
  {
    assert ([x] + a)[1..] == a && ([y] + b)[1..] == b;
  }

  lemma LexLeReflexive(a: seq<int>)
    ensures LexLe(a, a)
  {
    LexLeTotal(a, a);
  }

  // ---------------------------------------------------------------------
  // The sort

  ghost predicate SortedBy<T>(s: seq<T>, key: T -> seq<int>) {
    forall i, j {:trigger LexLe(key(s[i]), key(s[j]))} :: 0 <= i < j < |s| ==> LexLe(key(s[i]), key(s[j]))
  }

  /** The elements whose key is `k`. */
  function KeyIs<T>(key: T -> seq<int>, k: seq<int>): T -> bool {
    x => key(x) == k
  }

  /**
   * Inserts `x` into `t` after every element whose key is not above the key
   * of `x`, scanning from the end.
   */
  function Insert<T>(t: seq<T>, x: T, key: T -> seq<int>): (r: seq<T>)
    ensures |r| == |t| + 1
    decreases |t|
  {
    if t == [] || LexLe(key(t[|t| - 1]), key(x)) then t + [x]
    else Insert(t[..|t| - 1], x, key) + [t[|t| - 1]]
  }

  /** A stable sort of `s` by the keys. */
  function Sort<T>(s: seq<T>, key: T -> seq<int>): (r: seq<T>)
    ensures |r| == |s|
    decreases |s|
  {
    if s == [] then []
    else Insert(Sort(s[..|s| - 1], key), s[|s| - 1], key)
  }

  lemma {:induction false} InsertPermutes<T>(t: seq<T>, x: T, key: T -> seq<int>)
    ensures multiset(Insert(t, x, key)) == multiset(t) + multiset{x}
    decreases |t|
  {
    if !(t == [] || LexLe(key(t[|t| - 1]), key(x))) {
      InsertPermutes(t[..|t| - 1], x, key);
      assert t == t[..|t| - 1] + [t[|t| - 1]];
    }
  }

  /** `Sort(s, key)` is a permutation of `s`. */
  lemma {:induction false} SortPermutes<T>(s: seq<T>, key: T -> seq<int>)
    ensures multiset(Sort(s, key)) == multiset(s)
    decreases |s|
  {
    if s != [] {
      SortPermutes(s[..|s| - 1], key);
      InsertPermutes(Sort(s[..|s| - 1], key), s[|s| - 1], key);
      assert s == s[..|s| - 1] + [s[|s| - 1]];
    }
  }

  lemma SortSnoc<T>(s: seq<T>, x: T, key: T -> seq<int>)
    ensures Sort(s + [x], key) == Insert(Sort(s, key), x, key)
  {
    assert (s + [x])[..|s|] == s;
  }

  lemma InsertLast<T>(t: seq<T>, x: T, key: T -> seq<int>)
    requires t == [] || LexLe(key(t[|t| - 1]), key(x))
    ensures Insert(t, x, key) == t + [x]
  {
  }

  lemma InsertBeforeLast<T>(t: seq<T>, x: T, key: T -> seq<int>)
    requires t != [] && !LexLe(key(t[|t| - 1]), key(x))
    ensures Insert(t, x, key) == Insert(t[..|t| - 1], x, key) + [t[|t| - 1]]
  {
  }

  lemma SortedInit<T>(s: seq<T>, key: T -> seq<int>)
    requires s != [] && SortedBy(s, key)
    ensures SortedBy(s[..|s| - 1], key)
  {
    var s' := s[..|s| - 1];
    forall i, j | 0 <= i < j < |s'| ensures LexLe(key(s'[i]), key(s'[j])) {
      assert s'[i] == s[i] && s'[j] == s[j];
      assert LexLe(key(s[i]), key(s[j]));
    }
  }

  /** In a sorted sequence every element's key is at most the last element's key. */
  lemma SortedBelowLast<T>(s: seq<T>, key: T -> seq<int>, y: T)
    requires s != [] && SortedBy(s, key) && y in s
    ensures LexLe(key(y), key(s[|s| - 1]))
  {
    var i :| 0 <= i < |s| && s[i] == y;
    if i < |s| - 1 {
      assert LexLe(key(s[i]), key(s[|s| - 1]));
    } else {
      LexLeReflexive(key(y));
    }
  }

  lemma {:induction false} InsertSorted<T>(t: seq<T>, x: T, key: T -> seq<int>)
    requires SortedBy(t, key)
    ensures SortedBy(Insert(t, x, key), key)
    decreases |t|
  {
    var r := Insert(t, x, key);
    if t == [] || LexLe(key(t[|t| - 1]), key(x)) {
      InsertLast(t, x, key);
      forall i, j | 0 <= i < j < |r| ensures LexLe(key(r[i]), key(r[j])) {
        if j == |t| {
          SortedBelowLast(t, key, r[i]);
          LexLeTransitive(key(r[i]), key(t[|t| - 1]), key(x));
        } else {
          assert LexLe(key(t[i]), key(t[j]));
        }
      }
    } else {
      var t' := t[..|t| - 1];
      var last := t[|t| - 1];
      var u := Insert(t', x, key);
      InsertBeforeLast(t, x, key);
      SortedInit(t, key);
      InsertSorted(t', x, key);
      InsertPermutes(t', x, key);
      LexLeTotal(key(last), key(x));
      forall y | y in u ensures LexLe(key(y), key(last)) {
        assert y in multiset(u);
        if y != x {
          assert y in multiset(t');
          assert y in t;
          SortedBelowLast(t, key, y);
        }
      }
      forall i, j | 0 <= i < j < |r| ensures LexLe(key(r[i]), key(r[j])) {
        if j == |r| - 1 {
          assert r[i] in u;
        } else {
          assert r[i] == u[i] && r[j] == u[j];
          assert LexLe(key(u[i]), key(u[j]));
        }
      }
    }
  }

  /** The result of `Sort` is ordered by the keys. */
  lemma {:induction false} SortSorted<T>(s: seq<T>, key: T -> seq<int>)
    ensures SortedBy(Sort(s, key), key)
    decreases |s|
  {
    if s != [] {
      var s' := s[..|s| - 1];
      assert s == s' + [s[|s| - 1]];
      SortSorted(s', key);
      SortSnoc(s', s[|s| - 1], key);
      InsertSorted(Sort(s', key), s[|s| - 1], key);
    }
  }

  /** Filtering commutes with insertion into a sorted sequence. */
  lemma {:induction false} FilterInsert<T>(t: seq<T>, x: T, key: T -> seq<int>, p: T -> bool)
    requires SortedBy(t, key)
    ensures Filter(Insert(t, x, key), p)
            == if p(x) then Insert(Filter(t, p), x, key) else Filter(t, p)
    decreases |t|
  {
    if t == [] || LexLe(key(t[|t| - 1]), key(x)) {
      FilterInsertAtEnd(t, x, key, p);
    } else {
      var t' := t[..|t| - 1];
      assert t == t' + [t[|t| - 1]];
      SortedInit(t, key);
      FilterInsert(t', x, key, p);
      FilterInsertBeforeLast(t', t[|t| - 1], x, key, p);
    }
  }

  lemma FilterInsertAtEnd<T>(t: seq<T>, x: T, key: T -> seq<int>, p: T -> bool)
    requires SortedBy(t, key)
    requires t == [] || LexLe(key(t[|t| - 1]), key(x))
    ensures Filter(Insert(t, x, key), p)
            == if p(x) then Insert(Filter(t, p), x, key) else Filter(t, p)
  {
    var f := Filter(t, p);
    InsertLast(t, x, key);
    FilterSnoc(t, x, p);
    if p(x) && f != [] {
      var y := f[|f| - 1];
      FilterSound(t, p);
      SortedBelowLast(t, key, y);
      LexLeTransitive(key(y), key(t[|t| - 1]), key(x));
      InsertLast(f, x, key);
    } else if p(x) {
      InsertLast(f, x, key);
    }
  }

  lemma FilterInsertBeforeLast<T>(t: seq<T>, last: T, x: T, key: T -> seq<int>, p: T -> bool)
    requires !LexLe(key(last), key(x))
    requires Filter(Insert(t, x, key), p) == if p(x) then Insert(Filter(t, p), x, key) else Filter(t, p)
    ensures Filter(Insert(t + [last], x, key), p)
            == if p(x) then Insert(Filter(t + [last], p), x, key) else Filter(t + [last], p)
  {
    InsertAboveLast(t, last, x, key);
    FilterSnoc(Insert(t, x, key), last, p);
    FilterSnoc(t, last, p);
    if p(last) && p(x) {
      InsertAboveLast(Filter(t, p), last, x, key);
    }
  }

  /** `x` goes before a last element whose key is above its own. */
  lemma InsertAboveLast<T>(t: seq<T>, last: T, x: T, key: T -> seq<int>)
    requires !LexLe(key(last), key(x))
    ensures Insert(t + [last], x, key) == Insert(t, x, key) + [last]
  {
    assert (t + [last])[..|t|] == t;
  }

  /** Filtering a stably sorted sequence is stably sorting the filtered sequence. */
  lemma {:induction false} FilterSort<T>(s: seq<T>, key: T -> seq<int>, p: T -> bool)
    ensures Filter(Sort(s, key), p) == Sort(Filter(s, p), key)
    decreases |s|
  {
    if s != [] {
      var s' := s[..|s| - 1];
      var x := s[|s| - 1];
      assert s == s' + [x];
      FilterSort(s', key, p);
      SortSorted(s', key);
      SortSnoc(s', x, key);
      FilterInsert(Sort(s', key), x, key, p);
      FilterSnoc(s', x, p);
      if p(x) {
        SortSnoc(Filter(s', p), x, key);
      }
    }
  }

  /** Sorting a sequence whose elements all have the same key leaves it unchanged. */
  lemma {:induction false} SortSameKey<T>(s: seq<T>, key: T -> seq<int>, k: seq<int>)
    requires forall i :: 0 <= i < |s| ==> key(s[i]) == k
    ensures Sort(s, key) == s
    decreases |s|
  {
    if s != [] {
      var s' := s[..|s| - 1];
      var x := s[|s| - 1];
      assert s == s' + [x];
      SortSameKey(s', key, k);
      SortSnoc(s', x, key);
      LexLeReflexive(k);
      if s' != [] {
        assert key(s'[|s'| - 1]) == k;
      }
      InsertLast(s', x, key);
    }
  }

  /** Among elements with equal keys, the sort keeps the input order. */
  lemma SortStable<T>(s: seq<T>, key: T -> seq<int>, k: seq<int>)
    ensures Filter(Sort(s, key), KeyIs(key, k)) == Filter(s, KeyIs(key, k))
  {
    var f := Filter(s, KeyIs(key, k));
    FilterSort(s, key, KeyIs(key, k));
    FilterSound(s, KeyIs(key, k));
    assert forall i :: 0 <= i < |f| ==> KeyIs(key, k)(f[i]);
    SortSameKey(f, key, k);
  }

  /** Filtering by a predicate every element satisfies keeps everything. */
  lemma {:induction false} FilterAll<T>(s: seq<T>, p: T -> bool)
    requires forall i :: 0 <= i < |s| ==> p(s[i])
    ensures Filter(s, p) == s
    decreases |s|
  {
    if s != [] {
      FilterAll(s[..|s| - 1], p);
    }
  }

  /** A sorted sequence with two keys is its lower-keyed elements followed by the others. */
  lemma {:induction false} SortedTwoKeys<T>(t: seq<T>, key: T -> seq<int>, k0: seq<int>, k1: seq<int>)
    requires SortedBy(t, key) && LexLe(k0, k1) && k0 != k1
    requires forall i :: 0 <= i < |t| ==> key(t[i]) == k0 || key(t[i]) == k1
    ensures t == Filter(t, KeyIs(key, k0)) + Filter(t, KeyIs(key, k1))
    decreases |t|
  {
    if t != [] {
      var t', x := t[..|t| - 1], t[|t| - 1];
      assert t == t' + [x];
      if key(x) == k1 {
        SortedInit(t, key);
        SortedTwoKeys(t', key, k0, k1);
        FilterSnoc(t', x, KeyIs(key, k0));
        FilterSnoc(t', x, KeyIs(key, k1));
      } else {
        SortedLastLow(t, key, k0, k1);
        FilterAll(t, KeyIs(key, k0));
        FilterNone(t, KeyIs(key, k1));
      }
    }
  }

  /** When a sorted sequence with two keys ends with the lower key, every key is the lower one. */
  lemma SortedLastLow<T>(t: seq<T>, key: T -> seq<int>, k0: seq<int>, k1: seq<int>)
    requires t != [] && SortedBy(t, key) && LexLe(k0, k1) && k0 != k1 && key(t[|t| - 1]) == k0
    requires forall i :: 0 <= i < |t| ==> key(t[i]) == k0 || key(t[i]) == k1
    ensures forall i :: 0 <= i < |t| ==> key(t[i]) == k0
  {
    forall i | 0 <= i < |t| - 1 ensures key(t[i]) == k0 {
      assert LexLe(key(t[i]), key(t[|t| - 1]));
      if key(t[i]) == k1 {
        LexLeAntisymmetric(k0, k1);
      }
    }
  }

  /**
   * Sorting by a key that takes one of two values puts the elements with
   * the lower key first and keeps the input order within each group.
   */
  lemma SortTwoKeys<T>(s: seq<T>, key: T -> seq<int>, k0: seq<int>, k1: seq<int>)
    requires LexLe(k0, k1) && k0 != k1
    requires forall i :: 0 <= i < |s| ==> key(s[i]) == k0 || key(s[i]) == k1
    ensures Sort(s, key) == Filter(s, KeyIs(key, k0)) + Filter(s, KeyIs(key, k1))
  {
    var t := Sort(s, key);
    SortSorted(s, key);
    SortPermutes(s, key);
    forall i | 0 <= i < |t| ensures key(t[i]) == k0 || key(t[i]) == k1 {
      assert t[i] in multiset(s);
    }
    SortedTwoKeys(t, key, k0, k1);
    SortStable(s, key, k0);
    SortStable(s, key, k1);
  }

  /** The least key of a sorted permutation is the key of its head. */
  lemma SortedHeadLeast<T>(t: seq<T>, key: T -> seq<int>, y: T)
    requires t != [] && SortedBy(t, key) && y in t
    ensures LexLe(key(t[0]), key(y))
  {
    var m :| 0 <= m < |t| && t[m] == y;
    if m == 0 {
      LexLeReflexive(key(y));
    } else {
      assert LexLe(key(t[0]), key(t[m]));
    }
  }

  /**
   * The head of the sort is the earliest element of `s` whose key is least:
   * no key of `s` is below its key, and no earlier element has its key.
   */
  lemma SortHead<T>(s: seq<T>, key: T -> seq<int>)
    requires |s| > 0
    ensures exists j :: 0 <= j < |s| && Sort(s, key)[0] == s[j]
                        && (forall i :: 0 <= i < |s| ==> LexLe(key(s[j]), key(s[i])))
                        && (forall i :: 0 <= i < j ==> key(s[i]) != key(s[j]))
  {
    var t := Sort(s, key);
    var k := key(t[0]);
    SortHeadLeast(s, key);
    SortPermutes(s, key);
    assert t[0] in multiset(s);
    var p := KeyIs(key, k);
    var j := Find(s, p).value;
    SortStable(s, key, k);
    FilterFirst(t, p, 0);
    FilterFirst(s, p, j);
  }

  /** No key of `s` is below the key of the head of its sort. */
  lemma SortHeadLeast<T>(s: seq<T>, key: T -> seq<int>)
    requires |s| > 0
    ensures forall i :: 0 <= i < |s| ==> LexLe(key(Sort(s, key)[0]), key(s[i]))
  {
    var t := Sort(s, key);
    SortSorted(s, key);
    SortPermutes(s, key);
    forall i | 0 <= i < |s| ensures LexLe(key(t[0]), key(s[i])) {
      assert s[i] in multiset(t);
      SortedHeadLeast(t, key, s[i]);
    }
  }

  /** The first element of the sort that satisfies `p` is the head of the sorted filtered input. */
  lemma SortFindIsFilteredHead<T>(s: seq<T>, key: T -> seq<int>, p: T -> bool)
    requires exists i :: 0 <= i < |s| && p(s[i])
    ensures Find(Sort(s, key), p).Some? && Filter(s, p) != []
    ensures Sort(s, key)[Find(Sort(s, key), p).value] == Sort(Filter(s, p), key)[0]
  {
    var t := Sort(s, key);
    var i0 :| 0 <= i0 < |s| && p(s[i0]);
    SortPermutes(s, key);
    assert s[i0] in multiset(t);
    var found := Find(t, p);
    if found.None? {
      assert false;
    }
    FilterComplete(s, p);
    FilterSort(s, key, p);
    FilterFirst(t, p, found.value);
  }

  /** A lower bound for the keys of `Filter(s, p)` bounds the keys of the elements of `s` that satisfy `p`. */
  lemma FilterLowerBound<T>(s: seq<T>, key: T -> seq<int>, p: T -> bool, k: seq<int>)
    requires forall i :: 0 <= i < |Filter(s, p)| ==> LexLe(k, key(Filter(s, p)[i]))
    ensures forall i :: 0 <= i < |s| && p(s[i]) ==> LexLe(k, key(s[i]))
  {
    FilterComplete(s, p);
    forall i | 0 <= i < |s| && p(s[i]) ensures LexLe(k, key(s[i])) {
      var u := Filter(s, p);
      assert s[i] in u;
      var l :| 0 <= l < |u| && u[l] == s[i];
    }
  }

  /** The first element of `s` with `p` and key `k` is the first element of `Filter(s, p)` with key `k`. */
  lemma FirstWithKey<T>(s: seq<T>, key: T -> seq<int>, p: T -> bool, m: nat)
    requires m < |Filter(s, p)|
    requires forall i :: 0 <= i < m ==> key(Filter(s, p)[i]) != key(Filter(s, p)[m])
    ensures exists j :: 0 <= j < |s| && Filter(s, p)[m] == s[j] && p(s[j])
                        && (forall i :: 0 <= i < j && p(s[i]) ==> key(s[i]) != key(s[j]))
  {
    var u := Filter(s, p);
    var k := key(u[m]);
    var q := Both(p, KeyIs(key, k));
    FilterSound(s, p);
    FilterComplete(s, q);
    FilterFirst(u, KeyIs(key, k), m);
    FilterFilter(s, p, KeyIs(key, k));
    assert u[m] in s;
    var i0 :| 0 <= i0 < |s| && s[i0] == u[m];
    assert q(s[i0]);
    var j := Find(s, q).value;
    FilterFirst(s, q, j);
    assert s[j] == u[m];
    forall i | 0 <= i < j && p(s[i]) ensures key(s[i]) != key(s[j]) {
      assert !q(s[i]);
    }
  }

  /** The head of the sorted filtered input is the earliest least-keyed element satisfying `p`. */
  lemma FilteredHeadOrigin<T>(s: seq<T>, key: T -> seq<int>, p: T -> bool)
    requires Filter(s, p) != []
    ensures exists j :: 0 <= j < |s| && Sort(Filter(s, p), key)[0] == s[j]
                        && p(s[j])
                        && (forall i :: 0 <= i < |s| && p(s[i]) ==> LexLe(key(s[j]), key(s[i])))
                        && (forall i :: 0 <= i < j && p(s[i]) ==> key(s[i]) != key(s[j]))
  {
    var u := Filter(s, p);
    SortHead(u, key);
    var m :| 0 <= m < |u| && Sort(u, key)[0] == u[m]
             && (forall i :: 0 <= i < |u| ==> LexLe(key(u[m]), key(u[i])))
             && (forall i :: 0 <= i < m ==> key(u[i]) != key(u[m]));
    FilterLowerBound(s, key, p, key(u[m]));
    FirstWithKey(s, key, p, m);
  }

  /**
   * The first element of the sort that satisfies `p` is the earliest element
   * of `s` among those that satisfy `p` and have the least key.
   */
  lemma SortFirstSatisfying<T>(s: seq<T>, key: T -> seq<int>, p: T -> bool)
    requires exists i :: 0 <= i < |s| && p(s[i])
    ensures Find(Sort(s, key), p).Some?
    ensures exists j :: 0 <= j < |s| && Sort(s, key)[Find(Sort(s, key), p).value] == s[j]
                        && p(s[j])
                        && (forall i :: 0 <= i < |s| && p(s[i]) ==> LexLe(key(s[j]), key(s[i])))
                        && (forall i :: 0 <= i < j && p(s[i]) ==> key(s[i]) != key(s[j]))
  {
    SortFindIsFilteredHead(s, key, p);
    FilteredHeadOrigin(s, key, p);
  }
}
