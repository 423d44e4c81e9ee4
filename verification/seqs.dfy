/**
 * Sequence operations that spell out the relational clauses of the queries:
 * WHERE is Filter, a single-row lookup is Find, ORDER BY is SortBy under a
 * strict weak order, LIMIT is Take, and a scan of result rows is Map.
 */
module Seqs {
  import opened Wrappers

  function Filter<T(!new)>(s: seq<T>, p: T -> bool): (r: seq<T>)
    ensures |r| <= |s|
    ensures forall x :: x in r <==> x in s && p(x)
  {
    if s == [] then [] else (if p(s[0]) then [s[0]] else []) + Filter(s[1..], p)
  }

  lemma {:induction false} FilterAppend<T(!new)>(a: seq<T>, b: seq<T>, p: T -> bool)
    ensures Filter(a + b, p) == Filter(a, p) + Filter(b, p)
  {
    if a != [] {
      assert (a + b)[1..] == a[1..] + b;
      FilterAppend(a[1..], b, p);
    } else {
      assert a + b == b;
    }
  }

  /** The first element satisfying `p`, as a single-row SELECT returns it. */
  function Find<T(!new)>(s: seq<T>, p: T -> bool): (r: Option<T>)
    ensures r.Some? ==> r.value in s && p(r.value)
    ensures r.None? <==> forall x :: x in s ==> !p(x)
  {
    if s == [] then None else if p(s[0]) then Some(s[0]) else Find(s[1..], p)
  }

  lemma {:induction false} FindAppend<T(!new)>(a: seq<T>, b: seq<T>, p: T -> bool)
    ensures Find(a + b, p) == if Find(a, p).Some? then Find(a, p) else Find(b, p)
  {
    if a != [] {
      assert (a + b)[0] == a[0] && (a + b)[1..] == a[1..] + b;
      FindAppend(a[1..], b, p);
    } else {
      assert a + b == b;
    }
  }

  /** Finding in a mapped sequence finds the image of what `p` finds, when `q` judges images as `p` judges originals. */
  lemma {:induction false} FindMap<T(!new), U(!new)>(s: seq<T>, f: T -> U, p: T -> bool, q: U -> bool)
    requires forall x :: q(f(x)) == p(x)
    ensures Find(Map(s, f), q) == if Find(s, p).Some? then Some(f(Find(s, p).value)) else None
  {
    if s != [] {
      assert Map(s, f)[0] == f(s[0]);
      assert Map(s, f)[1..] == Map(s[1..], f);
      FindMap(s[1..], f, p, q);
    }
  }

  function Map<T, U>(s: seq<T>, f: T -> U): (r: seq<U>)
    ensures |r| == |s| && forall i :: 0 <= i < |s| ==> r[i] == f(s[i])
  {
    seq(|s|, i requires 0 <= i < |s| => f(s[i]))
  }

  /** LIMIT n: the first n elements, or all of them when there are fewer. */
  function Take<T>(s: seq<T>, n: nat): (r: seq<T>)
    ensures |r| == if n < |s| then n else |s|
    ensures r <= s
  {
    if n < |s| then s[..n] else s
  }

  function Reverse<T>(s: seq<T>): (r: seq<T>)
    ensures |r| == |s| && forall i :: 0 <= i < |s| ==> r[i] == s[|s| - 1 - i]
  {
    if s == [] then [] else Reverse(s[1..]) + [s[0]]
  }

  /** The orders an ORDER BY clause induces: irreflexive, transitive, incomparability transitive. */
  ghost predicate StrictWeakOrder<T(!new)>(lt: (T, T) -> bool) {
    && (forall a :: !lt(a, a))
    && (forall a, b, c :: lt(a, b) && lt(b, c) ==> lt(a, c))
    && (forall a, b, c :: lt(a, c) ==> lt(a, b) || lt(b, c))
  }

  /** No element is strictly smaller than one before it. */
  predicate Sorted<T>(s: seq<T>, lt: (T, T) -> bool) {
    forall i, j :: 0 <= i < j < |s| ==> !lt(s[j], s[i])
  }

  /** Any two different elements of `s` are ordered one way or the other. */
  predicate TotalOn<T(==)>(s: seq<T>, lt: (T, T) -> bool) {
    forall x, y :: x in s && y in s && x != y ==> lt(x, y) || lt(y, x)
  }

  lemma NotLessChain<T(!new)>(lt: (T, T) -> bool, a: T, b: T, c: T)
    requires StrictWeakOrder(lt)
    ensures !lt(a, b) && !lt(b, c) ==> !lt(a, c)
  {
  }

  lemma Asymmetric<T(!new)>(lt: (T, T) -> bool, a: T, b: T)
    requires StrictWeakOrder(lt)
    ensures lt(a, b) ==> !lt(b, a)
  {
    assert lt(a, b) && lt(b, a) ==> lt(a, a);
  }

  /** Places `x` before the first element that is not smaller than it. */
  function Insert<T>(x: T, s: seq<T>, lt: (T, T) -> bool): (r: seq<T>)
    ensures |r| == |s| + 1 && multiset(r) == multiset(s) + multiset{x}
  {
    if s == [] || !lt(s[0], x) then [x] + s
    else
      assert s == [s[0]] + s[1..];
      [s[0]] + Insert(x, s[1..], lt)
  }

  /** ORDER BY: a stable insertion sort. */
  function SortBy<T>(s: seq<T>, lt: (T, T) -> bool): (r: seq<T>)
    ensures |r| == |s| && multiset(r) == multiset(s)
  {
    if s == [] then []
    else
      assert s == [s[0]] + s[1..];
      Insert(s[0], SortBy(s[1..], lt), lt)
  }

  lemma {:induction false} InsertSorted<T(!new)>(x: T, s: seq<T>, lt: (T, T) -> bool)
    requires StrictWeakOrder(lt) && Sorted(s, lt)
    ensures Sorted(Insert(x, s, lt), lt)
  {
    if s == [] || !lt(s[0], x) {
      var r := [x] + s;
      forall i, j | 0 <= i < j < |r| ensures !lt(r[j], r[i]) {
        if i == 0 {
          assert r[j] == s[j - 1];
          NotLessChain(lt, s[j - 1], s[0], x);
        }
      }
    } else {
      var t := Insert(x, s[1..], lt);
      InsertSorted(x, s[1..], lt);
      var r := [s[0]] + t;
      forall i, j | 0 <= i < j < |r| ensures !lt(r[j], r[i]) {
        if i == 0 {
          assert r[j] in multiset(t);
          assert r[j] == x || r[j] in s[1..];
          Asymmetric(lt, s[0], x);
        }
      }
    }
  }

  lemma {:induction false} SortSorted<T(!new)>(s: seq<T>, lt: (T, T) -> bool)
    requires StrictWeakOrder(lt)
    ensures Sorted(SortBy(s, lt), lt)
  {
    if s != [] {
      SortSorted(s[1..], lt);
      InsertSorted(s[0], SortBy(s[1..], lt), lt);
    }
  }

  lemma MultisetTail<T>(a: seq<T>, b: seq<T>)
    requires |a| > 0 && |b| > 0 && a[0] == b[0] && multiset(a) == multiset(b)
    ensures multiset(a[1..]) == multiset(b[1..])
  {
    assert a == [a[0]] + a[1..] && b == [b[0]] + b[1..];
    assert multiset(a) == multiset{a[0]} + multiset(a[1..]);
    assert multiset(b) == multiset{b[0]} + multiset(b[1..]);
    forall y ensures multiset(a[1..])[y] == multiset(b[1..])[y] {
      assert multiset(a)[y] == multiset{a[0]}[y] + multiset(a[1..])[y];
      assert multiset(b)[y] == multiset{b[0]}[y] + multiset(b[1..])[y];
    }
  }

  /**
   * When the order separates every two different elements, a sorted
   * arrangement of a multiset is unique: ORDER BY then has one answer.
   */
  lemma {:induction false} SortedUnique<T>(a: seq<T>, b: seq<T>, lt: (T, T) -> bool)
    requires Sorted(a, lt) && Sorted(b, lt)
    requires multiset(a) == multiset(b) && TotalOn(a, lt)
    ensures a == b
  {
    if a == [] {
      assert |b| == |multiset(b)| == 0;
    } else {
      assert |b| == |multiset(b)| == |a|;
      assert b[0] in multiset(a) && a[0] in multiset(b);
      var j :| 0 <= j < |a| && a[j] == b[0];
      var k :| 0 <= k < |b| && b[k] == a[0];
      if j > 0 { assert !lt(a[j], a[0]); }
      if k > 0 { assert !lt(b[k], b[0]); }
      assert a[0] == b[0];
      var a', b' := a[1..], b[1..];
      assert a == [a[0]] + a' && b == [b[0]] + b';
      MultisetTail(a, b);
      assert Sorted(a', lt) by {
        forall i, i' | 0 <= i < i' < |a'| ensures !lt(a'[i'], a'[i]) {
          assert a'[i'] == a[i' + 1] && a'[i] == a[i + 1];
        }
      }
      assert Sorted(b', lt) by {
        forall i, i' | 0 <= i < i' < |b'| ensures !lt(b'[i'], b'[i]) {
          assert b'[i'] == b[i' + 1] && b'[i] == b[i + 1];
        }
      }
      assert TotalOn(a', lt) by {
        forall x | x in a' ensures x in a {
          var m :| 0 <= m < |a'| && a'[m] == x;
          assert a[m + 1] == x;
        }
      }
      SortedUnique(a', b', lt);
    }
  }

  /** In a sorted sequence an element strictly smaller than another comes first. */
  lemma SortedBefore<T>(s: seq<T>, lt: (T, T) -> bool, i: int, j: int)
    requires Sorted(s, lt) && 0 <= i < |s| && 0 <= j < |s| && i != j && lt(s[i], s[j])
    ensures i < j
  {
  }

  /** Reading a sorted sequence backwards sorts it by any order that inverts `lt` on its elements. */
  lemma ReverseSorted<T>(s: seq<T>, lt: (T, T) -> bool, gt: (T, T) -> bool)
    requires Sorted(s, lt)
    requires forall x, y :: x in s && y in s && gt(x, y) ==> lt(y, x)
    ensures Sorted(Reverse(s), gt)
  {
    var r := Reverse(s);
    forall i, j | 0 <= i < j < |r| ensures !gt(r[j], r[i]) {
      assert r[j] == s[|s| - 1 - j] && r[i] == s[|s| - 1 - i];
    }
  }

  lemma {:induction false} ReverseMultiset<T>(s: seq<T>)
    ensures multiset(Reverse(s)) == multiset(s)
  {
    if s != [] {
      var r := Reverse(s);
      ReverseMultiset(s[1..]);
      assert r == Reverse(s[1..]) + [s[0]];
      assert s == [s[0]] + s[1..];
    }
  }

  /**
   * ORDER BY ... LIMIT k keeps the k smallest: nothing left out is smaller
   * than anything kept.
   */
  lemma TakeKeepsSmallest<T>(s: seq<T>, lt: (T, T) -> bool, k: nat)
    requires Sorted(s, lt)
    ensures forall q, x :: q in s && q !in Take(s, k) && x in Take(s, k) ==> !lt(q, x)
  {
    var r := Take(s, k);
    forall q, x | q in s && q !in r && x in r ensures !lt(q, x) {
      var j :| 0 <= j < |s| && s[j] == q;
      var i :| 0 <= i < |r| && r[i] == x;
      assert r == s[..|r|] && s[i] == x;
    }
  }

  /** LIMIT n, where a negative count yields no row. */
  function Limit<T>(s: seq<T>, n: int): (r: seq<T>)
    ensures r <= s && |r| == if n < 0 then 0 else if n < |s| then n else |s|
  {
    if n < 0 then [] else Take(s, n)
  }

  /** SELECT ... WHERE `where` ORDER BY `orderBy` LIMIT `limit`. */
  function Query<T(!new)>(s: seq<T>, where: T -> bool, orderBy: (T, T) -> bool, limit: int): seq<T> {
    Limit(SortBy(Filter(s, where), orderBy), limit)
  }

  lemma SortedPrefix<T>(s: seq<T>, r: seq<T>, lt: (T, T) -> bool)
    requires Sorted(s, lt) && r <= s
    ensures Sorted(r, lt)
  {
    forall i, j | 0 <= i < j < |r| ensures !lt(r[j], r[i]) {
      assert r[i] == s[i] && r[j] == s[j];
    }
  }

  /**
   * What a query returns: qualifying rows only, in order, at most `limit` of
   * them, none passed over in favour of a later one, and every qualifying row
   * when fewer than `limit` came back.
   */
  lemma QueryProperties<T(!new)>(s: seq<T>, where: T -> bool, orderBy: (T, T) -> bool, limit: int)
    requires StrictWeakOrder(orderBy)
    ensures var r := Query(s, where, orderBy, limit);
      && (forall x :: x in r ==> x in s && where(x))
      && Sorted(r, orderBy)
      && (limit < 0 ==> r == []) && (limit >= 0 ==> |r| <= limit)
      && (forall q, x :: q in s && where(q) && q !in r && x in r ==> !orderBy(q, x))
      && (|r| < limit ==> forall q :: q in s && where(q) ==> q in r)
  {
    SortSorted(Filter(s, where), orderBy);
    QueryOfSorted(s, where, orderBy, limit);
  }

  /** The same, from the sortedness of the ordered rows alone. */
  lemma QueryOfSorted<T(!new)>(s: seq<T>, where: T -> bool, orderBy: (T, T) -> bool, limit: int)
    requires Sorted(SortBy(Filter(s, where), orderBy), orderBy)
    ensures var r := Query(s, where, orderBy, limit);
      && (forall x :: x in r ==> x in s && where(x))
      && Sorted(r, orderBy)
      && (limit < 0 ==> r == []) && (limit >= 0 ==> |r| <= limit)
      && (forall q, x :: q in s && where(q) && q !in r && x in r ==> !orderBy(q, x))
      && (|r| < limit ==> forall q :: q in s && where(q) ==> q in r)
  {
    var c := Filter(s, where);
    var sorted := SortBy(c, orderBy);
    var r := Limit(sorted, limit);
    SortedPrefix(sorted, r, orderBy);
    TakeKeepsSmallest(sorted, orderBy, if limit < 0 then 0 else limit);
    forall x | x in r ensures x in s && where(x) {
      assert x in multiset(sorted);
    }
    forall q | q in s && where(q) ensures q in sorted {
      assert q in multiset(c);
    }
    if |r| < limit {
      assert r == sorted;
    }
  }

  /** Find depends only on which elements the predicate accepts. */
  lemma {:induction false} FindSame<T(!new)>(s: seq<T>, p: T -> bool, q: T -> bool)
    requires forall x :: p(x) == q(x)
    ensures Find(s, p) == Find(s, q)
  {
    if s != [] {
      FindSame(s[1..], p, q);
    }
  }
}
