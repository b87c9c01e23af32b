/** Sorting as the repository uses it: `[...new Set(xs)].sort()` and
    `.sort(compare)` over distinct keys. A sort of distinct values under a
    strict total order has exactly one possible outcome, so the model states
    that outcome (`SortedSet`) and proves it is the only increasing arrangement
    of those values (`IncreasingUnique`). */
module Sorting {

  // ---------------------------------------------------------------- orders

  /** String order of `.sort()` and of `a.localeCompare(b) < 0`, modelled as
      lexicographic order on characters, which are Unicode scalar values:
      code-point order, which agrees with JavaScript's UTF-16 code-unit
      order inside the Basic Multilingual Plane only. */
  predicate Less(a: string, b: string)
    decreases |a|
  {
    if a == [] then b != []
    else if b == [] then false
    else if a[0] != b[0] then a[0] < b[0]
    else Less(a[1..], b[1..])
  }

  lemma {:induction false} LessIrreflexive(a: string)
    ensures !Less(a, a)
    decreases |a|
  {
    if a != [] {
      LessIrreflexive(a[1..]);
    }
  }

  lemma {:induction false} LessTransitive(a: string, b: string, c: string)
    requires Less(a, b) && Less(b, c)
    ensures Less(a, c)
    decreases |a|
  {
    if a != [] && b != [] && c != [] && a[0] == b[0] && b[0] == c[0] {
      LessTransitive(a[1..], b[1..], c[1..]);
    }
  }

  lemma {:induction false} LessTotal(a: string, b: string)
    ensures a == b || Less(a, b) || Less(b, a)
    decreases |a|
  {
    if a != [] && b != [] && a[0] == b[0] {
      LessTotal(a[1..], b[1..]);
      if a[1..] == b[1..] {
        assert a == [a[0]] + a[1..] && b == [b[0]] + b[1..];
      }
    }
  }

  /** `lt` is irreflexive, transitive and relates any two distinct values. */
  ghost predicate StrictTotalOrder<T(!new)>(lt: (T, T) -> bool) {
    && (forall a :: !lt(a, a))
    && (forall a, b, c :: lt(a, b) && lt(b, c) ==> lt(a, c))
    && (forall a, b :: a == b || lt(a, b) || lt(b, a))
  }

  /** The order of author and genre names. */
  function ByName(): (T: (string, string) -> bool) {
    (a: string, b: string) => Less(a, b)
  }

  /** The order of `.sort((a, b) => b - a)` on years: larger first. */
  function Newest(): (T: (int, int) -> bool) {
    (a: int, b: int) => a > b
  }

  lemma ByNameIsStrictTotalOrder()
    ensures StrictTotalOrder(ByName())
  {
    forall a: string ensures !Less(a, a) {
      LessIrreflexive(a);
    }
    forall a: string, b: string, c: string | Less(a, b) && Less(b, c) ensures Less(a, c) {
      LessTransitive(a, b, c);
    }
    forall a: string, b: string ensures a == b || Less(a, b) || Less(b, a) {
      LessTotal(a, b);
    }
  }

  lemma NewestIsStrictTotalOrder()
    ensures StrictTotalOrder(Newest())
  {
  }

  // ---------------------------------------------------------------- sorted sets

  /** Every element comes strictly before every later one. */
  predicate Increasing<T>(s: seq<T>, lt: (T, T) -> bool) {
    forall i, j | 0 <= i < j < |s| :: lt(s[i], s[j])
  }

  /** An increasing sequence under an irreflexive order has no duplicates. */
  lemma IncreasingNoDup<T(!new)>(s: seq<T>, lt: (T, T) -> bool)
    requires StrictTotalOrder(lt) && Increasing(s, lt)
    ensures forall i, j | 0 <= i < j < |s| :: s[i] != s[j]
  {
  }

  /** `x` put in its place in an increasing sequence; nothing is added twice. */
  function Insert<T(==,!new)>(x: T, s: seq<T>, lt: (T, T) -> bool): (r: seq<T>)
    requires StrictTotalOrder(lt) && Increasing(s, lt)
    ensures Increasing(r, lt)
    ensures forall y :: y in r <==> y == x || y in s
    decreases |s|
  {
    if s == [] then [x]
    else if x == s[0] then s
    else if lt(x, s[0]) then
      assert forall j | 0 <= j < |s| :: lt(x, s[j]) by {
        assert forall j | 0 < j < |s| :: lt(s[0], s[j]);
      }
      [x] + s
    else
      var rest := Insert(x, s[1..], lt);
      assert forall y | y in rest :: lt(s[0], y) by {
        assert forall j | 0 < j < |s| :: s[j] in s[1..] && lt(s[0], s[j]);
      }
      [s[0]] + rest
  }

  /** `[...new Set(xs)].sort(compare)`: the distinct values of `xs`, each once,
      in increasing order. */
  function SortedSet<T(==,!new)>(xs: seq<T>, lt: (T, T) -> bool): (r: seq<T>)
    requires StrictTotalOrder(lt)
    ensures Increasing(r, lt)
    ensures forall y :: y in r <==> y in xs
    decreases |xs|
  {
    if xs == [] then []
    else
      var init := xs[..|xs| - 1];
      assert xs == init + [xs[|xs| - 1]];
      Insert(xs[|xs| - 1], SortedSet(init, lt), lt)
  }

  /** Two increasing sequences with the same elements are the same sequence:
      every correct sort of a set of distinct values gives `SortedSet`. */
  lemma {:induction false} IncreasingUnique<T(!new)>(a: seq<T>, b: seq<T>, lt: (T, T) -> bool)
    requires StrictTotalOrder(lt)
    requires Increasing(a, lt) && Increasing(b, lt)
    requires forall y :: y in a <==> y in b
    ensures a == b
    decreases |a|
  {
    if b != [] {
      assert b[0] in a;
    }
    if a != [] {
      assert a[0] in b;
      forall y ensures y in a[1..] <==> y in b[1..] {
        if y in a[1..] {
          var i :| 1 <= i < |a| && a[i] == y;
          assert lt(a[0], y);
        }
        if y in b[1..] {
          var j :| 1 <= j < |b| && b[j] == y;
          assert lt(b[0], y);
        }
        assert y in a ==> y == a[0] || y in a[1..];
        assert y in b ==> y == b[0] || y in b[1..];
      }
      IncreasingUnique(a[1..], b[1..], lt);
      assert a == [a[0]] + a[1..] && b == [b[0]] + b[1..];
    }
  }
}
