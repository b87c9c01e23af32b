/** Grouping into a dictionary, as the list views and dashboards do it: a
    loop over the items that pushes each one into `acc[key(item)]` (creating
    the entry on first sight), or adds one to `acc[key(item)] || 0`.
    JavaScript objects list string keys in insertion order, so the sections
    come out in order of first appearance (`DistinctKeys`). */
module Grouping {
  import opened Seqs
  import opened Sorting

  // ---------------------------------------------------------------- specification

  /** The items whose key is `k`, in their order. */
  function Select<T(!new), K(==)>(items: seq<T>, key: T -> K, k: K): seq<T> {
    Filter(items, x => key(x) == k)
  }

  /** Appending an item appends it to its own group and to no other. */
  lemma SelectSnoc<T(!new), K(!new)>(items: seq<T>, key: T -> K, x: T)
    ensures forall k ::
      Select(items + [x], key, k) == Select(items, key, k) + (if key(x) == k then [x] else [])
  {
    assert (items + [x])[..|items|] == items;
  }

  /** The first `i + 1` items are the first `i` and then item `i`. */
  lemma TakeSnoc<T>(items: seq<T>, i: nat)
    requires i < |items|
    ensures items[..i + 1] == items[..i] + [items[i]]
  {
  }

  /** `SelectSnoc` for one key. */
  lemma SelectSnocAt<T(!new), K(!new)>(items: seq<T>, key: T -> K, x: T, k: K)
    ensures Select(items + [x], key, k) == Select(items, key, k) + (if key(x) == k then [x] else [])
  {
    assert (items + [x])[..|items|] == items;
  }

  /** The keys of `items`, each once, in order of first appearance. */
  function DistinctKeys<T, K(==)>(items: seq<T>, key: T -> K): seq<K>
    decreases |items|
  {
    if items == [] then []
    else
      var d := DistinctKeys(items[..|items| - 1], key);
      var k := key(items[|items| - 1]);
      if k in d then d else d + [k]
  }

  /** Appending an item adds its key at the end, unless it was already met. */
  lemma DistinctKeysSnoc<T, K>(items: seq<T>, key: T -> K, x: T)
    ensures var d := DistinctKeys(items, key);
      DistinctKeys(items + [x], key) == if key(x) in d then d else d + [key(x)]
  {
    assert (items + [x])[..|items|] == items;
  }

  /** The distinct keys are distinct, every item's key is among them, and
      each of them is some item's key. */
  lemma DistinctKeysSound<T, K>(items: seq<T>, key: T -> K)
    ensures var d := DistinctKeys(items, key);
      && NoDup(d)
      && (forall i | 0 <= i < |items| :: key(items[i]) in d)
      && (forall j | 0 <= j < |d| :: exists i | 0 <= i < |items| :: key(items[i]) == d[j])
  {
    DistinctKeysNoDup(items, key);
    DistinctKeysCover(items, key);
    DistinctKeysFrom(items, key);
  }

  /** No key is listed twice. */
  lemma {:induction false} DistinctKeysNoDup<T, K>(items: seq<T>, key: T -> K)
    ensures NoDup(DistinctKeys(items, key))
    decreases |items|
  {
    if items != [] {
      DistinctKeysNoDup(items[..|items| - 1], key);
    }
  }

  /** Every item's key is listed. */
  lemma {:induction false} DistinctKeysCover<T, K>(items: seq<T>, key: T -> K)
    ensures forall i | 0 <= i < |items| :: key(items[i]) in DistinctKeys(items, key)
    decreases |items|
  {
    if items != [] {
      var init := items[..|items| - 1];
      DistinctKeysCover(init, key);
      assert forall i | 0 <= i < |init| :: init[i] == items[i];
    }
  }

  /** Every listed key is some item's key. */
  lemma {:induction false} DistinctKeysFrom<T, K>(items: seq<T>, key: T -> K)
    ensures var d := DistinctKeys(items, key);
      forall j | 0 <= j < |d| :: exists i | 0 <= i < |items| :: key(items[i]) == d[j]
    decreases |items|
  {
    if items != [] {
      var init := items[..|items| - 1];
      DistinctKeysFrom(init, key);
      var d, before := DistinctKeys(items, key), DistinctKeys(init, key);
      assert items == init + [items[|items| - 1]];
      DistinctKeysSnoc(init, key, items[|items| - 1]);
      forall j | 0 <= j < |d| ensures exists i | 0 <= i < |items| :: key(items[i]) == d[j] {
        if j < |before| {
          assert d[j] == before[j];
          var i :| 0 <= i < |init| && key(init[i]) == d[j];
          assert init[i] == items[i];
        } else {
          assert key(items[|items| - 1]) == d[j];
        }
      }
    }
  }

  /** The distinct keys are exactly the keys some item has. */
  lemma DistinctKeysMembers<T(!new), K(!new)>(items: seq<T>, key: T -> K)
    ensures forall k :: k in DistinctKeys(items, key) <==> exists i | 0 <= i < |items| :: key(items[i]) == k
  {
    var d := DistinctKeys(items, key);
    DistinctKeysSound(items, key);
    forall k | k in d ensures exists i | 0 <= i < |items| :: key(items[i]) == k {
      var j :| 0 <= j < |d| && d[j] == k;
    }
  }

  /** A key that no item has selects nothing. */
  lemma SelectAbsent<T(!new), K(!new)>(items: seq<T>, key: T -> K, k: K)
    requires k !in DistinctKeys(items, key)
    ensures Select(items, key, k) == []
  {
  }

  /** Sections come in order of first appearance: the keys met among the first
      `n` items are the first sections, in the same order. */
  lemma {:induction false} DistinctKeysPrefix<T(!new), K(!new)>(items: seq<T>, key: T -> K, n: nat)
    requires n <= |items|
    ensures var d := DistinctKeys(items, key);
      var p := DistinctKeys(items[..n], key);
      |p| <= |d| && d[..|p|] == p
    decreases |items|
  {
    if n < |items| {
      var init := items[..|items| - 1];
      assert items == init + [items[|items| - 1]];
      DistinctKeysSnoc(init, key, items[|items| - 1]);
      DistinctKeysPrefix(init, key, n);
      assert init[..n] == items[..n];
    } else {
      assert items[..n] == items;
    }
  }

  /** The groups of the keys `ks`, concatenated in the order of `ks`: what a
      sectioned view shows from top to bottom. */
  function Gathered<T(!new), K(==)>(ks: seq<K>, items: seq<T>, key: T -> K): seq<T>
    decreases |ks|
  {
    if ks == [] then []
    else Gathered(ks[..|ks| - 1], items, key) + Select(items, key, ks[|ks| - 1])
  }

  lemma {:induction false} GatheredSnoc<T(!new), K(!new)>(ks: seq<K>, items: seq<T>, key: T -> K, x: T)
    requires NoDup(ks)
    ensures multiset(Gathered(ks, items + [x], key)) ==
      multiset(Gathered(ks, items, key)) + (if key(x) in ks then multiset{x} else multiset{})
    decreases |ks|
  {
    if ks != [] {
      var init := ks[..|ks| - 1];
      var last := ks[|ks| - 1];
      assert NoDup(init);
      assert ks == init + [last];
      assert last !in init;
      GatheredSnoc(init, items, key, x);
      SelectSnoc(items, key, x);
    }
  }

  lemma {:induction false} GatheredNothing<T(!new), K(!new)>(ks: seq<K>, key: T -> K)
    ensures Gathered(ks, [], key) == []
    decreases |ks|
  {
    if ks != [] {
      GatheredNothing(ks[..|ks| - 1], key);
    }
  }

  /** Groups for distinct keys that cover every item partition the items:
      each item is shown in exactly one section, and nothing else is shown,
      whatever order the sections come in. */
  lemma {:induction false} Partition<T(!new), K(!new)>(ks: seq<K>, items: seq<T>, key: T -> K)
    requires NoDup(ks)
    requires forall i | 0 <= i < |items| :: key(items[i]) in ks
    ensures multiset(Gathered(ks, items, key)) == multiset(items)
    decreases |items|
  {
    if items == [] {
      GatheredNothing(ks, key);
    } else {
      var init := items[..|items| - 1];
      var x := items[|items| - 1];
      assert items == init + [x];
      assert forall i | 0 <= i < |init| :: init[i] == items[i];
      Partition(ks, init, key);
      GatheredSnoc(ks, init, key, x);
    }
  }

  /** A titled group of a sectioned view. */
  datatype Section<K, T> = Section(key: K, items: seq<T>)

  /** One section per key of `ks`, holding that key's group. */
  function Sections<T(!new), K(==)>(ks: seq<K>, items: seq<T>, key: T -> K): (r: seq<Section<K, T>>)
    ensures |r| == |ks|
    ensures forall j | 0 <= j < |ks| :: r[j].key == ks[j] && r[j].items == Select(items, key, ks[j])
  {
    seq(|ks|, j requires 0 <= j < |ks| => Section(ks[j], Select(items, key, ks[j])))
  }

  /** The items a sectioned view shows, top to bottom. */
  function Shown<K, T>(sections: seq<Section<K, T>>): seq<T>
    decreases |sections|
  {
    if sections == [] then [] else Shown(sections[..|sections| - 1]) + sections[|sections| - 1].items
  }

  lemma {:induction false} ShownSections<T(!new), K(!new)>(ks: seq<K>, items: seq<T>, key: T -> K)
    ensures Shown(Sections(ks, items, key)) == Gathered(ks, items, key)
    decreases |ks|
  {
    if ks != [] {
      var n := |ks| - 1;
      ShownSections(ks[..n], items, key);
      assert Sections(ks, items, key)[..n] == Sections(ks[..n], items, key);
    }
  }

  /** A sectioned view over distinct keys covering every item shows each
      item exactly once, and each section holds exactly the items with its
      key, in their order. */
  lemma SectionsPartition<T(!new), K(!new)>(ks: seq<K>, items: seq<T>, key: T -> K)
    requires NoDup(ks)
    requires forall i | 0 <= i < |items| :: key(items[i]) in ks
    ensures multiset(Shown(Sections(ks, items, key))) == multiset(items)
    ensures forall j | 0 <= j < |ks| :: IsSubseq(Sections(ks, items, key)[j].items, items)
    ensures forall j, x | 0 <= j < |ks| ::
      x in Sections(ks, items, key)[j].items <==> x in items && key(x) == ks[j]
  {
    ShownSections(ks, items, key);
    Partition(ks, items, key);
    forall j | 0 <= j < |ks| ensures IsSubseq(Select(items, key, ks[j]), items) {
      FilterIsSubseq(items, x => key(x) == ks[j]);
    }
  }

  /** The sum of `counts[k]` over the keys `ks`. */
  function SumOver<K>(ks: seq<K>, counts: map<K, nat>): nat
    requires forall j | 0 <= j < |ks| :: ks[j] in counts
    decreases |ks|
  {
    if ks == [] then 0 else SumOver(ks[..|ks| - 1], counts) + counts[ks[|ks| - 1]]
  }

  /** Group sizes add up to the number of items. */
  lemma {:induction false} GroupSizesSum<T(!new), K(!new)>(ks: seq<K>, items: seq<T>, key: T -> K, counts: map<K, nat>)
    requires forall j | 0 <= j < |ks| :: ks[j] in counts && counts[ks[j]] == |Select(items, key, ks[j])|
    ensures SumOver(ks, counts) == |Gathered(ks, items, key)|
    decreases |ks|
  {
    if ks != [] {
      GroupSizesSum(ks[..|ks| - 1], items, key, counts);
    }
  }

  /** The integer keys of a grouping, largest first:
      `Object.keys(acc).sort((a, b) => b - a)`. */
  function KeysNewestFirst<T>(items: seq<T>, key: T -> int): (r: seq<int>)
    ensures Increasing(r, Newest())
    ensures forall y :: y in r <==> y in DistinctKeys(items, key)
  {
    NewestIsStrictTotalOrder();
    SortedSet(DistinctKeys(items, key), Newest())
  }

  // ---------------------------------------------------------------- loops

  /** `keys` and `groups` are the keys met in `items`, in creation order, and
      the dictionary from each of them to its items. */
  ghost predicate Grouped<T(!new), K(!new)>(items: seq<T>, key: T -> K, keys: seq<K>, groups: map<K, seq<T>>) {
    && keys == DistinctKeys(items, key)
    && (forall k :: k in groups <==> k in keys)
    && (forall k | k in groups :: groups[k] == Select(items, key, k))
  }

  /** The dictionary after one pass of the grouping loop, which creates the
      entry if absent and then pushes. */
  lemma GroupsStep<T(!new), K(!new)>(seen: seq<T>, key: T -> K, x: T, groups: map<K, seq<T>>)
    requires forall k | k in groups :: groups[k] == Select(seen, key, k)
    requires key(x) !in groups ==> Select(seen, key, key(x)) == []
    ensures var created := if key(x) in groups then groups else groups[key(x) := []];
      var after := created[key(x) := created[key(x)] + [x]];
      forall k | k in after :: after[k] == Select(seen + [x], key, k)
  {
    var created := if key(x) in groups then groups else groups[key(x) := []];
    var after := created[key(x) := created[key(x)] + [x]];
    forall k | k in after ensures after[k] == Select(seen + [x], key, k) {
      SelectSnocAt(seen, key, x, k);
    }
  }

  /** One pass of the grouping loop keeps `Grouped`. */
  lemma GroupedStep<T(!new), K(!new)>(seen: seq<T>, key: T -> K, x: T, keys: seq<K>, groups: map<K, seq<T>>)
    requires Grouped(seen, key, keys, groups)
    ensures var created := if key(x) in groups then groups else groups[key(x) := []];
      Grouped(seen + [x], key, if key(x) in groups then keys else keys + [key(x)], created[key(x) := created[key(x)] + [x]])
  {
    DistinctKeysSnoc(seen, key, x);
    if key(x) !in groups {
      SelectAbsent(seen, key, key(x));
    }
    GroupsStep(seen, key, x, groups);
  }

  /** `items.forEach(x => { if (!acc[key(x)]) acc[key(x)] = []; acc[key(x)].push(x) })`:
      the groups, and the order in which their keys were created. */
  method GroupBy<T(!new), K(==,!new)>(items: seq<T>, key: T -> K) returns (keys: seq<K>, groups: map<K, seq<T>>)
    ensures Grouped(items, key, keys, groups)
  {
    keys, groups := [], map[];
    var i := 0;
    while i < |items|
      invariant 0 <= i <= |items|
      invariant Grouped(items[..i], key, keys, groups)
    {
      var x := items[i];
      var k := key(x);
      TakeSnoc(items, i);
      GroupedStep(items[..i], key, x, keys, groups);
      if k !in groups {
        keys := keys + [k];
        groups := groups[k := []];
      }
      groups := groups[k := groups[k] + [x]];
      i := i + 1;
    }
    assert items[..i] == items;
  }

  /** `keys` and `counts` are the keys met in `items`, in creation order, and
      the dictionary from each of them to its number of items. */
  ghost predicate Tallied<T(!new), K(!new)>(items: seq<T>, key: T -> K, keys: seq<K>, counts: map<K, nat>) {
    && keys == DistinctKeys(items, key)
    && (forall k :: k in counts <==> k in keys)
    && (forall k | k in counts :: counts[k] == |Select(items, key, k)|)
  }

  /** The counts after one pass of the counting loop,
      `acc[k] = (acc[k] || 0) + 1`. */
  lemma CountsStep<T(!new), K(!new)>(seen: seq<T>, key: T -> K, x: T, counts: map<K, nat>)
    requires forall k | k in counts :: counts[k] == |Select(seen, key, k)|
    requires key(x) !in counts ==> Select(seen, key, key(x)) == []
    ensures var after := counts[key(x) := (if key(x) in counts then counts[key(x)] else 0) + 1];
      forall k | k in after :: after[k] == |Select(seen + [x], key, k)|
  {
    var after := counts[key(x) := (if key(x) in counts then counts[key(x)] else 0) + 1];
    forall k | k in after ensures after[k] == |Select(seen + [x], key, k)| {
      SelectSnocAt(seen, key, x, k);
    }
  }

  /** One pass of the counting loop keeps `Tallied`. */
  lemma TalliedStep<T(!new), K(!new)>(seen: seq<T>, key: T -> K, x: T, keys: seq<K>, counts: map<K, nat>)
    requires Tallied(seen, key, keys, counts)
    ensures Tallied(seen + [x], key, if key(x) in counts then keys else keys + [key(x)],
      counts[key(x) := (if key(x) in counts then counts[key(x)] else 0) + 1])
  {
    DistinctKeysSnoc(seen, key, x);
    if key(x) !in counts {
      SelectAbsent(seen, key, key(x));
    }
    CountsStep(seen, key, x, counts);
  }

  /** `items.reduce((acc, x) => { acc[key(x)] = (acc[key(x)] || 0) + 1; return acc }, {})`:
      how many items carry each key, and the order the keys were created. */
  method Tally<T(!new), K(==,!new)>(items: seq<T>, key: T -> K) returns (keys: seq<K>, counts: map<K, nat>)
    ensures Tallied(items, key, keys, counts)
  {
    keys, counts := [], map[];
    var i := 0;
    while i < |items|
      invariant 0 <= i <= |items|
      invariant Tallied(items[..i], key, keys, counts)
    {
      var x := items[i];
      var k := key(x);
      TakeSnoc(items, i);
      TalliedStep(items[..i], key, x, keys, counts);
      if k !in counts {
        keys := keys + [k];
      }
      counts := counts[k := (if k in counts then counts[k] else 0) + 1];
      i := i + 1;
    }
    assert items[..i] == items;
  }

  /** A tally's counts are positive and add up to the number of items. */
  lemma TallyTotals<T(!new), K(!new)>(items: seq<T>, key: T -> K, keys: seq<K>, counts: map<K, nat>)
    requires keys == DistinctKeys(items, key)
    requires forall k :: k in counts <==> k in keys
    requires forall k | k in counts :: counts[k] == |Select(items, key, k)|
    ensures forall k | k in counts :: counts[k] >= 1
    ensures SumOver(keys, counts) == |items|
  {
    DistinctKeysSound(items, key);
    forall k | k in counts ensures counts[k] >= 1 {
      var i :| 0 <= i < |items| && key(items[i]) == k;
      assert items[i] in Select(items, key, k);
    }
    GroupSizesSum(keys, items, key, counts);
    Partition(keys, items, key);
    assert |multiset(Gathered(keys, items, key))| == |multiset(items)|;
  }
}
