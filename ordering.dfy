/**
 * Grouping and ordering by an integer key, shared by the publication and
 * conference renderers and the language breakdown: Python's stable
 * `sorted(xs, key=key, reverse=True)`, the per-key list built while filling
 * a dict, and the dict's keys in insertion order.
 */
module Ordering {

  predicate Distinct<T(==)>(s: seq<T>) {
    forall i, j :: 0 <= i < j < |s| ==> s[i] != s[j]
  }

  /** Non-increasing by key. */
  predicate SortedDesc<T>(xs: seq<T>, key: T -> int) {
    forall i, j :: 0 <= i < j < |xs| ==> key(xs[i]) >= key(xs[j])
  }

  function Id(k: int): int { k }

  // ---------------------------------------------------------------- filter

  /** The elements of `xs` whose key is `k`, in their original order. */
  function Filter<T>(xs: seq<T>, key: T -> int, k: int): seq<T>
    decreases |xs|
  {
    if xs == [] then []
    else Filter(xs[..|xs| - 1], key, k) + (if key(xs[|xs| - 1]) == k then [xs[|xs| - 1]] else [])
  }

  /** Every element of a group has the group's key. */
  lemma {:induction false} FilterHasKey<T>(xs: seq<T>, key: T -> int, k: int)
    ensures forall x :: x in Filter(xs, key, k) ==> key(x) == k
    ensures multiset(Filter(xs, key, k)) <= multiset(xs)
    decreases |xs|
  {
    if xs != [] {
      var init := xs[..|xs| - 1];
      FilterHasKey(init, key, k);
      assert xs == init + [xs[|xs| - 1]];
    }
  }

  lemma {:induction false} FilterConcat<T>(a: seq<T>, b: seq<T>, key: T -> int, k: int)
    ensures Filter(a + b, key, k) == Filter(a, key, k) + Filter(b, key, k)
    decreases |b|
  {
    if b == [] {
      assert a + b == a;
    } else {
      var b' := b[..|b| - 1];
      assert (a + b)[..|a + b| - 1] == a + b';
      FilterConcat(a, b', key, k);
    }
  }

  lemma {:induction false} FilterAbsent<T>(xs: seq<T>, key: T -> int, k: int)
    requires forall i :: 0 <= i < |xs| ==> key(xs[i]) != k
    ensures Filter(xs, key, k) == []
    decreases |xs|
  {
    if xs != [] {
      FilterAbsent(xs[..|xs| - 1], key, k);
    }
  }

  lemma FilterSingleton<T>(x: T, key: T -> int, k: int)
    ensures Filter([x], key, k) == if key(x) == k then [x] else []
  {
    assert [x][..0] == [];
  }

  // ---------------------------------------------------------------- stable sort

  /** Where `x` goes in a descending list: after every strictly larger key. */
  function InsertPos<T>(x: T, ys: seq<T>, key: T -> int): (p: nat)
    ensures p <= |ys|
    ensures forall i :: 0 <= i < p ==> key(ys[i]) > key(x)
    ensures p < |ys| ==> key(ys[p]) <= key(x)
    decreases |ys|
  {
    if ys == [] || key(ys[0]) <= key(x) then 0 else 1 + InsertPos(x, ys[1..], key)
  }

  function Insert<T>(x: T, ys: seq<T>, key: T -> int): seq<T> {
    var p := InsertPos(x, ys, key);
    ys[..p] + [x] + ys[p..]
  }

  /** Python's `sorted(xs, key=key, reverse=True)`. */
  function SortDesc<T>(xs: seq<T>, key: T -> int): seq<T>
    decreases |xs|
  {
    if xs == [] then [] else Insert(xs[0], SortDesc(xs[1..], key), key)
  }

  lemma InsertAt<T>(x: T, ys: seq<T>, key: T -> int, i: int)
    requires 0 <= i <= |ys|
    ensures |Insert(x, ys, key)| == |ys| + 1
    ensures Insert(x, ys, key)[i] ==
      var p := InsertPos(x, ys, key);
      if i < p then ys[i] else if i == p then x else ys[i - 1]
  {
  }

  lemma InsertSorted<T>(x: T, ys: seq<T>, key: T -> int)
    requires SortedDesc(ys, key)
    ensures SortedDesc(Insert(x, ys, key), key)
    ensures multiset(Insert(x, ys, key)) == multiset(ys) + multiset{x}
  {
    var p := InsertPos(x, ys, key);
    var r := Insert(x, ys, key);
    InsertAt(x, ys, key, 0);
    forall i, j | 0 <= i < j < |r| ensures key(r[i]) >= key(r[j]) {
      InsertAt(x, ys, key, i);
      InsertAt(x, ys, key, j);
      if p < j {
        assert key(ys[p]) >= key(ys[j - 1]);
      }
    }
    calc {
      multiset(r);
      multiset(ys[..p]) + multiset{x} + multiset(ys[p..]);
      { assert ys == ys[..p] + ys[p..]; }
      multiset(ys) + multiset{x};
    }
  }

  /** The sort's result is non-increasing by key and a permutation of its input. */
  lemma {:induction false} SortDescSortedPermutation<T>(xs: seq<T>, key: T -> int)
    ensures SortedDesc(SortDesc(xs, key), key)
    ensures multiset(SortDesc(xs, key)) == multiset(xs)
    decreases |xs|
  {
    if xs != [] {
      SortDescSortedPermutation(xs[1..], key);
      InsertSorted(xs[0], SortDesc(xs[1..], key), key);
      assert xs == [xs[0]] + xs[1..];
    }
  }

  lemma InsertStable<T>(x: T, ys: seq<T>, key: T -> int, k: int)
    ensures Filter(Insert(x, ys, key), key, k) == Filter([x] + ys, key, k)
  {
    var p := InsertPos(x, ys, key);
    var a, b := ys[..p], ys[p..];
    assert ys == a + b;
    var fa, fx, fb := Filter(a, key, k), Filter([x], key, k), Filter(b, key, k);
    FilterConcat(a + [x], b, key, k);
    FilterConcat(a, [x], key, k);
    assert Filter(Insert(x, ys, key), key, k) == fa + fx + fb;
    FilterConcat([x], ys, key, k);
    FilterConcat(a, b, key, k);
    assert Filter([x] + ys, key, k) == fx + (fa + fb);
    FilterSingleton(x, key, k);
    if key(x) == k {
      assert forall i :: 0 <= i < |a| ==> key(a[i]) != k;
      FilterAbsent(a, key, k);
      assert fa == [];
      assert fa + fx == fx && fa + fb == fb;
    } else {
      assert fx == [];
      assert fa + fx == fa;
      assert fx + (fa + fb) == fa + fb;
    }
  }

  /** Stability: for every key, the elements with that key keep their input order. */
  lemma {:induction false} SortDescStable<T>(xs: seq<T>, key: T -> int, k: int)
    ensures Filter(SortDesc(xs, key), key, k) == Filter(xs, key, k)
    decreases |xs|
  {
    if xs != [] {
      var rest := SortDesc(xs[1..], key);
      SortDescSortedPermutation(xs[1..], key);
      InsertStable(xs[0], rest, key, k);
      FilterConcat([xs[0]], rest, key, k);
      SortDescStable(xs[1..], key, k);
      FilterConcat([xs[0]], xs[1..], key, k);
      assert xs == [xs[0]] + xs[1..];
    }
  }

  lemma InsertDistinct<T>(x: T, ys: seq<T>, key: T -> int)
    requires Distinct(ys) && x !in ys
    ensures Distinct(Insert(x, ys, key))
  {
    var r := Insert(x, ys, key);
    InsertAt(x, ys, key, 0);
    forall i, j | 0 <= i < j < |r| ensures r[i] != r[j] {
      InsertAt(x, ys, key, i);
      InsertAt(x, ys, key, j);
    }
  }

  lemma {:induction false} SortDescDistinct<T>(xs: seq<T>, key: T -> int)
    requires Distinct(xs)
    ensures Distinct(SortDesc(xs, key))
    decreases |xs|
  {
    if xs != [] {
      var rest := SortDesc(xs[1..], key);
      assert Distinct(xs[1..]);
      SortDescDistinct(xs[1..], key);
      SortDescSortedPermutation(xs[1..], key);
      assert xs[0] !in xs[1..];
      assert xs[0] !in multiset(rest);
      InsertDistinct(xs[0], rest, key);
    }
  }

  // ---------------------------------------------------------------- keys

  /** The set of keys that occur in `xs`. */
  function KeySet<T>(xs: seq<T>, key: T -> int): (r: set<int>)
    ensures forall i :: 0 <= i < |xs| ==> key(xs[i]) in r
    decreases |xs|
  {
    if xs == [] then {}
    else KeySet(xs[..|xs| - 1], key) + {key(xs[|xs| - 1])}
  }

  /** The distinct keys of `xs` in order of first occurrence: a dict's key order. */
  function FirstKeys<T>(xs: seq<T>, key: T -> int): (r: seq<int>)
    ensures Distinct(r)
    ensures forall k :: k in r <==> k in KeySet(xs, key)
    decreases |xs|
  {
    if xs == [] then []
    else
      var d := FirstKeys(xs[..|xs| - 1], key);
      var k := key(xs[|xs| - 1]);
      if k in d then d else d + [k]
  }

  /** The distinct keys of `xs`, largest first: `sorted(d.keys(), reverse=True)`. */
  function DescKeys<T>(xs: seq<T>, key: T -> int): seq<int> {
    SortDesc(FirstKeys(xs, key), Id)
  }

  predicate StrictlyDesc(s: seq<int>) {
    forall i, j :: 0 <= i < j < |s| ==> s[i] > s[j]
  }

  /** The distinct keys, largest first, are strictly descending and are exactly the keys present. */
  lemma DescKeysStrictlyDescending<T>(xs: seq<T>, key: T -> int)
    ensures StrictlyDesc(DescKeys(xs, key))
    ensures forall k :: k in DescKeys(xs, key) <==> k in KeySet(xs, key)
  {
    var f := FirstKeys(xs, key);
    var r := SortDesc(f, Id);
    assert r == DescKeys(xs, key);
    SortDescSortedPermutation(f, Id);
    SortDescDistinct(f, Id);
    forall i, j | 0 <= i < j < |r| ensures r[i] > r[j] {
      assert Id(r[i]) >= Id(r[j]);
      assert r[i] != r[j];
    }
    forall k ensures k in r <==> k in f {
      assert k in r <==> k in multiset(r);
      assert k in f <==> k in multiset(f);
    }
  }

  /** How the keys and the groups change when one more element is seen. */
  lemma PrefixStep<T>(xs: seq<T>, i: nat, key: T -> int)
    requires i < |xs|
    ensures FirstKeys(xs[..i + 1], key) ==
      if key(xs[i]) in FirstKeys(xs[..i], key) then FirstKeys(xs[..i], key)
      else FirstKeys(xs[..i], key) + [key(xs[i])]
    ensures KeySet(xs[..i + 1], key) == KeySet(xs[..i], key) + {key(xs[i])}
  {
    assert xs[..i + 1][..i] == xs[..i];
  }

  lemma FilterStep<T>(xs: seq<T>, i: nat, key: T -> int, k: int)
    requires i < |xs|
    ensures Filter(xs[..i + 1], key, k) == Filter(xs[..i], key, k) + (if key(xs[i]) == k then [xs[i]] else [])
  {
    assert xs[..i + 1][..i] == xs[..i];
  }

  /** Building the per-key lists of a dict in one pass, as both renderers do. */
  method GroupBy<T>(xs: seq<T>, key: T -> int) returns (groups: map<int, seq<T>>, order: seq<int>)
    ensures order == FirstKeys(xs, key)
    ensures groups.Keys == KeySet(xs, key)
    ensures forall k :: k in groups ==> groups[k] == Filter(xs, key, k)
  {
    groups, order := map[], [];
    for i := 0 to |xs|
      invariant order == FirstKeys(xs[..i], key)
      invariant groups.Keys == KeySet(xs[..i], key)
      invariant forall k :: k in groups ==> groups[k] == Filter(xs[..i], key, k)
    {
      var k := key(xs[i]);
      PrefixStep(xs, i, key);
      var group := if k in groups then groups[k] else [];
      if k !in groups {
        FilterAbsent(xs[..i], key, k);
        order := order + [k];
      }
      FilterStep(xs, i, key, k);
      ghost var g0 := groups;
      groups := groups[k := group + [xs[i]]];
      forall k' | k' in groups ensures groups[k'] == Filter(xs[..i + 1], key, k') {
        FilterStep(xs, i, key, k');
        if k' != k {
          assert groups[k'] == g0[k'];
        }
      }
    }
    assert xs[..|xs|] == xs;
  }

  // ---------------------------------------------------------------- partition

  /** The groups of the keys `ks`, one after the other. */
  function Grouped<T>(ks: seq<int>, xs: seq<T>, key: T -> int): seq<T>
    decreases |ks|
  {
    if ks == [] then []
    else Grouped(ks[..|ks| - 1], xs, key) + Filter(xs, key, ks[|ks| - 1])
  }

  lemma {:induction false} GroupedSnoc<T>(ks: seq<int>, xs: seq<T>, x: T, key: T -> int)
    requires Distinct(ks)
    ensures multiset(Grouped(ks, xs + [x], key))
         == multiset(Grouped(ks, xs, key)) + (if key(x) in ks then multiset{x} else multiset{})
    decreases |ks|
  {
    if ks != [] {
      var init, k := ks[..|ks| - 1], ks[|ks| - 1];
      assert Distinct(init);
      assert ks == init + [k];
      GroupedSnoc(init, xs, x, key);
      FilterConcat(xs, [x], key, k);
      FilterSingleton(x, key, k);
      if key(x) == k {
        assert key(x) !in init;
      } else {
        assert key(x) in ks <==> key(x) in init;
      }
    }
  }

  lemma {:induction false} GroupedEmpty<T>(ks: seq<int>, key: T -> int)
    ensures Grouped(ks, [], key) == []
    decreases |ks|
  {
    if ks != [] {
      GroupedEmpty(ks[..|ks| - 1], key);
    }
  }

  /**
   * When `ks` lists every key once, the groups together hold every element
   * exactly once.
   */
  lemma {:induction false} GroupedIsPermutation<T>(ks: seq<int>, xs: seq<T>, key: T -> int)
    requires Distinct(ks)
    requires forall i :: 0 <= i < |xs| ==> key(xs[i]) in ks
    ensures multiset(Grouped(ks, xs, key)) == multiset(xs)
    decreases |xs|
  {
    if xs == [] {
      GroupedEmpty(ks, key);
    } else {
      var init, x := xs[..|xs| - 1], xs[|xs| - 1];
      assert forall i :: 0 <= i < |init| ==> init[i] == xs[i];
      GroupedIsPermutation(ks, init, key);
      GroupedSnoc(ks, init, x, key);
      assert key(x) in ks;
      assert init + [x] == xs;
      calc {
        multiset(Grouped(ks, xs, key));
        multiset(Grouped(ks, init, key)) + multiset{x};
        multiset(init) + multiset{x};
        multiset(xs);
      }
    }
  }

  /** Every key in `KeySet` is the key of some element. */
  lemma {:induction false} KeySetOnlyKeys<T>(xs: seq<T>, key: T -> int, k: int)
    requires k in KeySet(xs, key)
    ensures exists i :: 0 <= i < |xs| && key(xs[i]) == k
    decreases |xs|
  {
    var init := xs[..|xs| - 1];
    if k in KeySet(init, key) {
      KeySetOnlyKeys(init, key, k);
      var i :| 0 <= i < |init| && key(init[i]) == k;
      assert xs[i] == init[i];
    } else {
      assert key(xs[|xs| - 1]) == k;
    }
  }

  /**
   * The layout of a page grouped by key, largest key first: the headings
   * are strictly descending, they are exactly the keys that occur, every
   * group holds only elements of its key, and the groups together hold
   * every element exactly once.
   */
  lemma GroupedDescending<T>(xs: seq<T>, key: T -> int)
    ensures var ks := DescKeys(xs, key);
            && StrictlyDesc(ks)
            && (forall i :: 0 <= i < |xs| ==> key(xs[i]) in ks)
            && (forall k :: k in ks ==> exists i :: 0 <= i < |xs| && key(xs[i]) == k)
            && (forall k, x :: k in ks && x in Filter(xs, key, k) ==> key(x) == k)
            && multiset(Grouped(ks, xs, key)) == multiset(xs)
  {
    var ks := DescKeys(xs, key);
    DescKeysStrictlyDescending(xs, key);
    forall k | k in ks ensures exists i :: 0 <= i < |xs| && key(xs[i]) == k {
      KeySetOnlyKeys(xs, key, k);
    }
    forall k | k in ks ensures forall x :: x in Filter(xs, key, k) ==> key(x) == k {
      FilterHasKey(xs, key, k);
    }
    assert Distinct(ks) by {
      forall i, j | 0 <= i < j < |ks| ensures ks[i] != ks[j] {
        assert ks[i] > ks[j];
      }
    }
    GroupedIsPermutation(ks, xs, key);
  }
}
