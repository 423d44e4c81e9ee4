/**
 * PostgreSQL's comparison of arrays, which orders the `path` column: element
 * by element, the first difference decides, and a proper prefix comes first.
 * Text columns are compared the same way over their character codes.
 */
module Order {
  import opened Seqs

  predicate LexLess(a: seq<int>, b: seq<int>) {
    if |a| == 0 then |b| > 0
    else if |b| == 0 then false
    else if a[0] != b[0] then a[0] < b[0]
    else LexLess(a[1..], b[1..])
  }

  lemma {:induction false} LexIrreflexive(a: seq<int>)
    ensures !LexLess(a, a)
  {
    if |a| > 0 { LexIrreflexive(a[1..]); }
  }

  lemma {:induction false} LexTransitive(a: seq<int>, b: seq<int>, c: seq<int>)
    requires LexLess(a, b) && LexLess(b, c)
    ensures LexLess(a, c)
  {
    if |a| > 0 && a[0] == b[0] && b[0] == c[0] {
      LexTransitive(a[1..], b[1..], c[1..]);
    }
  }

  lemma {:induction false} LexTotal(a: seq<int>, b: seq<int>)
    requires a != b
    ensures LexLess(a, b) || LexLess(b, a)
  {
    if |a| > 0 && |b| > 0 && a[0] == b[0] {
      assert a == [a[0]] + a[1..] && b == [b[0]] + b[1..];
      LexTotal(a[1..], b[1..]);
    }
  }

  lemma LexAsymmetric(a: seq<int>, b: seq<int>)
    requires LexLess(a, b)
    ensures !LexLess(b, a)
  {
    if LexLess(b, a) {
      LexTransitive(a, b, a);
      LexIrreflexive(a);
    }
  }

  /** An ancestor's path sorts before every descendant's path. */
  lemma {:induction false} PrefixFirst(a: seq<int>, b: seq<int>)
    requires a < b
    ensures LexLess(a, b)
  {
    if |a| > 0 {
      assert b[0] == a[0];
      assert a[1..] < b[1..] by { assert b[1..][..|a| - 1] == a[1..]; }
      PrefixFirst(a[1..], b[1..]);
    }
  }

  /**
   * Depth-first contiguity: whatever sorts between a path and one of its
   * extensions is itself an extension of that path, so ordering by path lists
   * each subtree as one uninterrupted block.
   */
  lemma {:induction false} SubtreeContiguous(a: seq<int>, b: seq<int>, c: seq<int>)
    requires LexLess(a, b) && LexLess(b, c) && a <= c
    ensures a <= b
  {
    if |a| > 0 {
      assert c[0] == a[0];
      assert a[1..] <= c[1..] by { assert c[1..][..|a| - 1] == a[1..]; }
      SubtreeContiguous(a[1..], b[1..], c[1..]);
      assert b == [b[0]] + b[1..];
    }
  }

  /** The character codes of a text value. */
  function Codes(s: string): (r: seq<int>)
    ensures |r| == |s| && forall i :: 0 <= i < |s| ==> r[i] == s[i] as int
  {
    seq(|s|, i requires 0 <= i < |s| => s[i] as int)
  }

  lemma CodesInjective(a: string, b: string)
    requires Codes(a) == Codes(b)
    ensures a == b
  {
    assert |a| == |b|;
    forall i | 0 <= i < |a| ensures a[i] == b[i] {
      assert Codes(a)[i] == Codes(b)[i];
    }
  }

  /** Text comparison, by character code. */
  predicate StrLess(a: string, b: string) {
    LexLess(Codes(a), Codes(b))
  }

  /** ORDER BY an integer column. */
  function ByInt<T>(key: T -> int): (T, T) -> bool {
    (a: T, b: T) => key(a) < key(b)
  }

  /** ORDER BY an integer column DESC. */
  function ByIntDesc<T>(key: T -> int): (T, T) -> bool {
    (a: T, b: T) => key(b) < key(a)
  }

  /** ORDER BY an array column. */
  function ByPath<T>(key: T -> seq<int>): (T, T) -> bool {
    (a: T, b: T) => LexLess(key(a), key(b))
  }

  /** ORDER BY an array column DESC. */
  function ByPathDesc<T>(key: T -> seq<int>): (T, T) -> bool {
    (a: T, b: T) => LexLess(key(b), key(a))
  }

  /** ORDER BY a text column. */
  function ByText<T>(key: T -> string): (T, T) -> bool {
    (a: T, b: T) => StrLess(key(a), key(b))
  }

  /** ORDER BY a text column DESC. */
  function ByTextDesc<T>(key: T -> string): (T, T) -> bool {
    (a: T, b: T) => StrLess(key(b), key(a))
  }

  /** `ORDER BY first, second`: the second key decides only between rows the first does not separate. */
  function Then<T>(first: (T, T) -> bool, second: (T, T) -> bool): (T, T) -> bool {
    (a: T, b: T) => first(a, b) || (!first(b, a) && second(a, b))
  }

  lemma ByIntOrder<T(!new)>(key: T -> int)
    ensures StrictWeakOrder(ByInt(key)) && StrictWeakOrder(ByIntDesc(key))
  {
  }

  lemma ByPathOrder<T(!new)>(key: T -> seq<int>)
    ensures StrictWeakOrder(ByPath(key)) && StrictWeakOrder(ByPathDesc(key))
  {
    forall a: T {
      LexIrreflexive(key(a));
    }
    forall a: T, b: T, c: T {
      LexOrderStep(key(a), key(b), key(c));
    }
  }

  lemma ByTextOrder<T(!new)>(key: T -> string)
    ensures StrictWeakOrder(ByText(key)) && StrictWeakOrder(ByTextDesc(key))
  {
    ByPathOrder((x: T) => Codes(key(x)));
    assert forall a: T, b: T :: ByText(key)(a, b) == ByPath((x: T) => Codes(key(x)))(a, b);
    assert forall a: T, b: T :: ByTextDesc(key)(a, b) == ByPathDesc((x: T) => Codes(key(x)))(a, b);
  }

  /** Transitivity of LexLess and of its complement, for three given arrays. */
  lemma LexOrderStep(a: seq<int>, b: seq<int>, c: seq<int>)
    ensures LexLess(a, b) && LexLess(b, c) ==> LexLess(a, c)
    ensures LexLess(a, c) ==> LexLess(a, b) || LexLess(b, c)
  {
    if LexLess(a, b) && LexLess(b, c) {
      LexTransitive(a, b, c);
    }
    if LexLess(a, c) && !LexLess(a, b) && a != b {
      LexTotal(a, b);
      LexTransitive(b, a, c);
    }
  }

  lemma ThenOrder<T(!new)>(first: (T, T) -> bool, second: (T, T) -> bool)
    requires StrictWeakOrder(first) && StrictWeakOrder(second)
    ensures StrictWeakOrder(Then(first, second))
  {
    var lt := Then(first, second);
    forall a: T, b: T, c: T | lt(a, b) && lt(b, c) ensures lt(a, c) {
      assert first(a, c) || (!first(c, a) && second(a, c)) by {
        assert first(a, b) ==> first(a, c) || first(c, b);
        assert first(b, c) ==> first(b, a) || first(a, c);
        assert first(c, a) ==> first(c, b) || first(b, a);
      }
    }
    forall a: T, b: T, c: T | lt(a, c) ensures lt(a, b) || lt(b, c) {
      assert first(a, c) ==> first(a, b) || first(b, c);
      assert first(b, a) ==> first(b, c) || first(c, a);
      assert first(c, b) ==> first(c, a) || first(a, b);
      assert second(a, c) ==> second(a, b) || second(b, c);
    }
  }
}
