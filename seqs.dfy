/** Array operations the repository uses everywhere — `filter`, `includes`,
    `findIndex`, `splice` — stated over sequences, with the order-preserving
    subsequence relation that `filter` establishes. */
module Seqs {
  import opened Optional

  /** `s.filter(p)`: the elements of `s` that satisfy `p`, in their order. */
  function Filter<T(!new)>(s: seq<T>, p: T -> bool): (r: seq<T>)
    ensures |r| <= |s|
    ensures forall x :: x in r <==> x in s && p(x)
    decreases |s|
  {
    if s == [] then []
    else
      var init := Filter(s[..|s| - 1], p);
      assert s == s[..|s| - 1] + [s[|s| - 1]];
      if p(s[|s| - 1]) then init + [s[|s| - 1]] else init
  }

  /** `a` is `b` with some elements deleted: an order-preserving subsequence. */
  predicate IsSubseq<T(==)>(a: seq<T>, b: seq<T>)
    decreases |b|
  {
    if a == [] then true
    else if b == [] then false
    else if a[|a| - 1] == b[|b| - 1] then IsSubseq(a[..|a| - 1], b[..|b| - 1])
    else IsSubseq(a, b[..|b| - 1])
  }

  /** No element occurs twice. */
  predicate NoDup<T(==)>(s: seq<T>) {
    forall i, j | 0 <= i < j < |s| :: s[i] != s[j]
  }

  /** `filter` keeps the order of what it keeps. */
  lemma {:induction false} FilterIsSubseq<T(!new)>(s: seq<T>, p: T -> bool)
    ensures IsSubseq(Filter(s, p), s)
    decreases |s|
  {
    if s != [] {
      var n := |s| - 1;
      var init := Filter(s[..n], p);
      FilterIsSubseq(s[..n], p);
      if p(s[n]) {
        assert (init + [s[n]])[..|init|] == init;
      } else if init != [] {
        assert init[|init| - 1] in init;
      }
    }
  }

  /** A filter that every element passes returns its input. */
  lemma {:induction false} FilterAll<T(!new)>(s: seq<T>, p: T -> bool)
    requires forall i | 0 <= i < |s| :: p(s[i])
    ensures Filter(s, p) == s
    decreases |s|
  {
    if s != [] {
      FilterAll(s[..|s| - 1], p);
      assert s == s[..|s| - 1] + [s[|s| - 1]];
    }
  }

  /** A filter and the filter by the opposite condition split the input:
      their lengths add up to its length. */
  lemma {:induction false} FilterComplement<T(!new)>(s: seq<T>, p: T -> bool, q: T -> bool)
    requires forall i | 0 <= i < |s| :: q(s[i]) == !p(s[i])
    ensures |Filter(s, p)| + |Filter(s, q)| == |s|
    decreases |s|
  {
    if s != [] {
      FilterComplement(s[..|s| - 1], p, q);
    }
  }

  /** A filter keeps nothing exactly when no element passes it. */
  lemma FilterNone<T(!new)>(s: seq<T>, p: T -> bool)
    ensures Filter(s, p) == [] <==> forall i | 0 <= i < |s| :: !p(s[i])
  {
    var r := Filter(s, p);
    if r != [] {
      assert r[0] in s;
    }
    if exists i | 0 <= i < |s| :: p(s[i]) {
      var i :| 0 <= i < |s| && p(s[i]);
      assert s[i] in r;
    }
  }

  /** Filtering a concatenation filters each part. */
  lemma {:induction false} FilterConcat<T(!new)>(a: seq<T>, b: seq<T>, p: T -> bool)
    ensures Filter(a + b, p) == Filter(a, p) + Filter(b, p)
    decreases |b|
  {
    if b != [] {
      var n := |b| - 1;
      FilterConcat(a, b[..n], p);
      assert (a + b)[..|a + b| - 1] == a + b[..n];
    } else {
      assert a + b == a;
    }
  }

  /** Two filters in a row are one filter by both conditions. */
  lemma {:induction false} FilterFilter<T(!new)>(s: seq<T>, p: T -> bool, q: T -> bool, both: T -> bool)
    requires forall i | 0 <= i < |s| :: both(s[i]) == (p(s[i]) && q(s[i]))
    ensures Filter(Filter(s, p), q) == Filter(s, both)
    decreases |s|
  {
    if s != [] {
      var n := |s| - 1;
      assert forall i | 0 <= i < n :: s[..n][i] == s[i];
      FilterFilter(s[..n], p, q, both);
      if p(s[n]) {
        FilterConcat(Filter(s[..n], p), [s[n]], q);
        assert [s[n]][..0] == [];
      }
    }
  }

  /** A filter that rejects exactly the element at `i` splices it out. */
  lemma FilterDropOne<T(!new)>(s: seq<T>, p: T -> bool, i: nat)
    requires i < |s| && !p(s[i])
    requires forall j | 0 <= j < |s| && j != i :: p(s[j])
    ensures Filter(s, p) == s[..i] + s[i + 1..]
  {
    var before, after := s[..i], s[i + 1..];
    KeepAllBefore(s, p, i);
    KeepAllAfter(s, p, i);
    FilterAround(s, p, i);
  }

  /** Every element before the rejected one passes. */
  lemma KeepAllBefore<T(!new)>(s: seq<T>, p: T -> bool, i: nat)
    requires i < |s|
    requires forall j | 0 <= j < |s| && j != i :: p(s[j])
    ensures Filter(s[..i], p) == s[..i]
  {
    assert forall j | 0 <= j < i :: s[..i][j] == s[j];
    FilterAll(s[..i], p);
  }

  /** Every element after the rejected one passes. */
  lemma KeepAllAfter<T(!new)>(s: seq<T>, p: T -> bool, i: nat)
    requires i < |s|
    requires forall j | 0 <= j < |s| && j != i :: p(s[j])
    ensures Filter(s[i + 1..], p) == s[i + 1..]
  {
    assert forall j | i < j < |s| :: s[i + 1..][j - i - 1] == s[j];
    FilterAll(s[i + 1..], p);
  }

  /** A filter of `s` is the filter of the part before `i`, then `s[i]` if
      it passes, then the filter of the part after. */
  lemma FilterAround<T(!new)>(s: seq<T>, p: T -> bool, i: nat)
    requires i < |s|
    ensures p(s[i]) ==> Filter(s, p) == (Filter(s[..i], p) + [s[i]]) + Filter(s[i + 1..], p)
    ensures !p(s[i]) ==> Filter(s, p) == Filter(s[..i], p) + Filter(s[i + 1..], p)
  {
    SplitAt(s, i);
    FilterConcat(s[..i] + [s[i]], s[i + 1..], p);
    FilterSnoc(s[..i], s[i], p);
  }

  /** A sequence is its part before `i`, its element at `i` and its part after. */
  lemma SplitAt<T>(s: seq<T>, i: nat)
    requires i < |s|
    ensures s == (s[..i] + [s[i]]) + s[i + 1..]
  {
  }

  /** Filtering one more element appends it if it passes. */
  lemma FilterSnoc<T(!new)>(s: seq<T>, x: T, p: T -> bool)
    ensures p(x) ==> Filter(s + [x], p) == Filter(s, p) + [x]
    ensures !p(x) ==> Filter(s + [x], p) == Filter(s, p)
  {
    assert (s + [x])[..|s|] == s;
  }

  /** Filters that agree on the elements of `s` select the same elements. */
  lemma {:induction false} FilterExt<T(!new)>(s: seq<T>, p: T -> bool, q: T -> bool)
    requires forall i | 0 <= i < |s| :: p(s[i]) == q(s[i])
    ensures Filter(s, p) == Filter(s, q)
    decreases |s|
  {
    if s != [] {
      FilterExt(s[..|s| - 1], p, q);
    }
  }

  /** A filter keeps a duplicate-free sequence duplicate-free. */
  lemma {:induction false} FilterNoDup<T(!new)>(s: seq<T>, p: T -> bool)
    requires NoDup(s)
    ensures NoDup(Filter(s, p))
    decreases |s|
  {
    if s != [] {
      var n := |s| - 1;
      FilterNoDup(s[..n], p);
      assert s[n] !in s[..n];
    }
  }

  lemma {:induction false} SubseqDropLast<T>(a: seq<T>, b: seq<T>)
    requires a != [] && IsSubseq(a, b)
    ensures IsSubseq(a[..|a| - 1], b)
    decreases |b|, 0
  {
    var m := |b| - 1;
    var a' := a[..|a| - 1];
    if a[|a| - 1] == b[m] {
      if a' != [] {
        SubseqWeaken(a', b[..m], b[m]);
        assert b[..m] + [b[m]] == b;
      }
    } else {
      SubseqDropLast(a, b[..m]);
      if a' != [] {
        SubseqWeaken(a', b[..m], b[m]);
        assert b[..m] + [b[m]] == b;
      }
    }
  }

  /** Appending to the larger sequence keeps a subsequence a subsequence. */
  lemma {:induction false} SubseqWeaken<T>(a: seq<T>, b: seq<T>, x: T)
    requires IsSubseq(a, b)
    ensures IsSubseq(a, b + [x])
    decreases |b|, 1
  {
    assert (b + [x])[..|b|] == b;
    if a != [] && a[|a| - 1] == x {
      SubseqDropLast(a, b);
    }
  }

  /** Every sequence is a subsequence of itself. */
  lemma {:induction false} SubseqRefl<T>(s: seq<T>)
    ensures IsSubseq(s, s)
    decreases |s|
  {
    if s != [] {
      SubseqRefl(s[..|s| - 1]);
    }
  }

  /** Chained filters: a subsequence of a subsequence is a subsequence. */
  lemma {:induction false} SubseqTransitive<T>(a: seq<T>, b: seq<T>, c: seq<T>)
    requires IsSubseq(a, b) && IsSubseq(b, c)
    ensures IsSubseq(a, c)
    decreases |c|
  {
    if a != [] {
      var m := |c| - 1;
      if b[|b| - 1] == c[m] {
        if a[|a| - 1] == b[|b| - 1] {
          SubseqTransitive(a[..|a| - 1], b[..|b| - 1], c[..m]);
        } else {
          SubseqTransitive(a, b[..|b| - 1], c[..m]);
        }
      } else {
        SubseqTransitive(a, b, c[..m]);
        if a[|a| - 1] == c[m] {
          SubseqDropLast(a, c[..m]);
        }
      }
    }
  }

  /** `s.filter(y => y !== x)`: every occurrence of `x` removed. */
  function RemoveAll<T(==,!new)>(s: seq<T>, x: T): (r: seq<T>)
    ensures forall y :: y in r <==> y in s && y != x
    ensures x !in s ==> r == s
    ensures NoDup(s) ==> NoDup(r)
    decreases |s|
  {
    if s == [] then []
    else
      var n := |s| - 1;
      assert s == s[..n] + [s[n]];
      var init := RemoveAll(s[..n], x);
      assert NoDup(s) ==> s[n] !in s[..n] && NoDup(s[..n]);
      if s[n] == x then init else init + [s[n]]
  }

  /** `s.findIndex(y => y === x)`, with `None` for -1. */
  function IndexOf<T(==)>(s: seq<T>, x: T): (r: Option<nat>)
    ensures r.None? <==> x !in s
    ensures r.Some? ==> r.value < |s| && s[r.value] == x && x !in s[..r.value]
    decreases |s|
  {
    if s == [] then None
    else if s[0] == x then Some(0)
    else
      match IndexOf(s[1..], x)
      case None => None
      case Some(k) =>
        assert s[..k + 1] == [s[0]] + s[1..][..k];
        Some(k + 1)
  }

  /** `splice(findIndex(y => y === x), 1)` guarded by `!== -1`: the first
      occurrence of `x` removed, if there is one. */
  function RemoveFirst<T(==)>(s: seq<T>, x: T): (r: seq<T>)
    ensures x !in s ==> r == s
    ensures x in s ==> |r| == |s| - 1 && multiset(r) == multiset(s) - multiset{x}
    ensures x in s ==> exists k | 0 <= k < |s| :: s[k] == x && x !in s[..k] && r == s[..k] + s[k + 1..]
  {
    match IndexOf(s, x)
    case None => s
    case Some(k) =>
      assert s == s[..k] + [s[k]] + s[k + 1..];
      s[..k] + s[k + 1..]
  }

  /** In a duplicate-free sequence, removing the first occurrence keeps it
      duplicate-free. */
  lemma RemoveFirstNoDup<T>(s: seq<T>, x: T)
    requires NoDup(s)
    ensures NoDup(RemoveFirst(s, x))
  {
    if x in s {
      var k := IndexOf(s, x).value;
      var r := s[..k] + s[k + 1..];
      assert forall i | 0 <= i < |r| :: r[i] == s[if i < k then i else i + 1];
    }
  }

  /** In a duplicate-free sequence, removing the first occurrence of `x`
      removes `x` and nothing else. */
  lemma RemoveFirstMembers<T(!new)>(s: seq<T>, x: T)
    requires NoDup(s)
    ensures forall y :: y in RemoveFirst(s, x) <==> y in s && y != x
  {
    if x in s {
      var k := IndexOf(s, x).value;
      var r := s[..k] + s[k + 1..];
      assert forall i | 0 <= i < |r| :: r[i] == s[if i < k then i else i + 1];
      assert forall i | 0 <= i < |s| && i != k :: s[i] == r[if i < k then i else i - 1];
    }
  }

  /** `s.map(f)`. */
  function Map<T, U>(s: seq<T>, f: T -> U): (r: seq<U>)
    ensures |r| == |s|
  {
    seq(|s|, i requires 0 <= i < |s| => f(s[i]))
  }
}
