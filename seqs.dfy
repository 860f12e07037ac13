/**
  Sequence operations the dashboard gets from pandas and from Python's
  built-ins: boolean-mask selection (`df[mask]`), `unique()` in order of first
  appearance, occurrence counts, and the insertion-ordered `dict`.
*/
module Seqs {

  /** No element occurs twice. */
  ghost predicate Distinct<T>(xs: seq<T>) {
    forall i, j :: 0 <= i < j < |xs| ==> xs[i] != xs[j]
  }

  /** `a` is obtained from `b` by deleting elements, keeping the order of the rest. */
  ghost predicate Subsequence<T>(a: seq<T>, b: seq<T>)
    decreases |b|
  {
    if a == [] then true
    else if b == [] then false
    else (a[0] == b[0] && Subsequence(a[1..], b[1..])) || Subsequence(a, b[1..])
  }

  /** The elements of `xs` that satisfy `p`, in their original order (pandas `df[mask]`). */
  function Filter<T>(xs: seq<T>, p: T -> bool): (r: seq<T>)
    ensures |r| <= |xs|
    ensures forall x :: x in r ==> x in xs && p(x)
    decreases |xs|
  {
    if xs == [] then []
    else if p(xs[0]) then [xs[0]] + Filter(xs[1..], p)
    else Filter(xs[1..], p)
  }

  /** Element-wise image, as a Python list comprehension `[f(x) for x in xs]`. */
  function Map<T, U>(xs: seq<T>, f: T -> U): seq<U>
  {
    seq(|xs|, i requires 0 <= i < |xs| => f(xs[i]))
  }

  /** Index of the first occurrence of `x` in `xs`. */
  function IndexOf<T(==)>(xs: seq<T>, x: T): (k: nat)
    requires x in xs
    ensures k < |xs| && xs[k] == x && x !in xs[..k]
  {
    if xs[0] == x then 0 else 1 + IndexOf(xs[1..], x)
  }

  /** The distinct elements of `xs` in order of first appearance (pandas `Series.unique()`). */
  function Unique<T(==,!new)>(xs: seq<T>): (u: seq<T>)
    ensures |u| <= |xs|
    ensures Distinct(u)
    ensures forall x :: x in u <==> x in xs
    decreases |xs|
  {
    if xs == [] then []
    else
      var u := Unique(xs[..|xs| - 1]);
      var last := xs[|xs| - 1];
      assert forall x :: x in xs <==> x in xs[..|xs| - 1] || x == last;
      if last in u then u else u + [last]
  }

  /** Sum, over the keys, of how often each key occurs in `xs`. */
  function OccurrenceSum<T(==)>(keys: seq<T>, xs: seq<T>): nat {
    if keys == [] then 0 else multiset(xs)[keys[0]] + OccurrenceSum(keys[1..], xs)
  }

  lemma {:induction false} FilterSubsequence<T>(xs: seq<T>, p: T -> bool)
    ensures Subsequence(Filter(xs, p), xs)
    decreases |xs|
  {
    if xs != [] {
      FilterSubsequence(xs[1..], p);
      if !p(xs[0]) {
        var f := Filter(xs, p);
        if f != [] {
          assert Subsequence(f, xs[1..]);
        }
      }
    }
  }

  /** How often `x` occurs in a selection: as often as in the input when it is selected, else never. */
  lemma {:induction false} FilterMultiplicity<T>(xs: seq<T>, p: T -> bool, x: T)
    ensures multiset(Filter(xs, p))[x] == if p(x) then multiset(xs)[x] else 0
    decreases |xs|
  {
    if xs != [] {
      FilterMultiplicity(xs[1..], p, x);
      assert xs == [xs[0]] + xs[1..];
    }
  }

  /** Selecting by `p` and then by `q` is selecting by their conjunction. */
  lemma {:induction false} FilterFilter<T>(xs: seq<T>, p: T -> bool, q: T -> bool, pq: T -> bool)
    requires forall x :: pq(x) == (p(x) && q(x))
    ensures Filter(Filter(xs, p), q) == Filter(xs, pq)
    decreases |xs|
  {
    if xs != [] {
      FilterFilter(xs[1..], p, q, pq);
    }
  }

  /** Two selections can be applied in either order. */
  lemma FilterCommutes<T>(xs: seq<T>, p: T -> bool, q: T -> bool)
    ensures Filter(Filter(xs, p), q) == Filter(Filter(xs, q), p)
  {
    var pq := (x: T) => p(x) && q(x);
    FilterFilter(xs, p, q, pq);
    FilterFilter(xs, q, p, pq);
  }

  /** A selection that every element passes changes nothing. */
  lemma {:induction false} FilterAll<T>(xs: seq<T>, p: T -> bool)
    requires forall i :: 0 <= i < |xs| ==> p(xs[i])
    ensures Filter(xs, p) == xs
    decreases |xs|
  {
    if xs != [] {
      FilterAll(xs[1..], p);
    }
  }

  /** An element of the input that passes the selection is kept. */
  lemma {:induction false} FilterKeeps<T>(xs: seq<T>, p: T -> bool, x: T)
    requires x in xs && p(x)
    ensures x in Filter(xs, p)
    decreases |xs|
  {
    if xs[0] != x {
      FilterKeeps(xs[1..], p, x);
    }
  }

  /** Every element is selected either by `p` or by its negation. */
  lemma {:induction false} FilterPartition<T>(xs: seq<T>, p: T -> bool, q: T -> bool)
    requires forall x :: q(x) == !p(x)
    ensures |Filter(xs, p)| + |Filter(xs, q)| == |xs|
    decreases |xs|
  {
    if xs != [] {
      FilterPartition(xs[1..], p, q);
    }
  }

  /** Selections by predicates that agree everywhere are equal. */
  lemma {:induction false} FilterExtensional<T>(xs: seq<T>, p: T -> bool, q: T -> bool)
    requires forall x :: p(x) == q(x)
    ensures Filter(xs, p) == Filter(xs, q)
    decreases |xs|
  {
    if xs != [] {
      FilterExtensional(xs[1..], p, q);
    }
  }

  /** A prefix one element longer is the prefix and that element. */
  lemma TakeSnoc<T>(xs: seq<T>, i: nat)
    requires i < |xs|
    ensures xs[..i + 1] == xs[..i] + [xs[i]]
  {
  }

  /** Selecting from an extended sequence (used where a loop appends at the end). */
  lemma {:induction false} FilterSnoc<T>(xs: seq<T>, x: T, p: T -> bool)
    ensures Filter(xs + [x], p) == Filter(xs, p) + (if p(x) then [x] else [])
    decreases |xs|
  {
    if xs == [] {
      assert [x][1..] == [];
    } else {
      assert (xs + [x])[1..] == xs[1..] + [x];
      FilterSnoc(xs[1..], x, p);
    }
  }

  /**
    `Unique` lists the elements in the order in which they first occur:
    an earlier entry of the result first occurs earlier in the input.
  */
  lemma {:induction false} UniqueFirstAppearance<T(!new)>(xs: seq<T>)
    ensures forall i, j :: 0 <= i < j < |Unique(xs)| ==>
      IndexOf(xs, Unique(xs)[i]) < IndexOf(xs, Unique(xs)[j])
    decreases |xs|
  {
    if xs != [] {
      var init := xs[..|xs| - 1];
      var last := xs[|xs| - 1];
      UniqueFirstAppearance(init);
      var u := Unique(init);
      forall x | x in init
        ensures IndexOf(xs, x) == IndexOf(init, x)
      {
        IndexOfPrefix(xs, x);
      }
      if last !in u {
        assert last !in init;
        IndexOfLast(xs);
      }
    }
  }

  lemma {:induction false} IndexOfPrefix<T>(xs: seq<T>, x: T)
    requires |xs| > 0 && x in xs[..|xs| - 1]
    ensures IndexOf(xs, x) == IndexOf(xs[..|xs| - 1], x)
    decreases |xs|
  {
    if xs[0] != x {
      assert xs[1..][..|xs[1..]| - 1] == xs[..|xs| - 1][1..];
      IndexOfPrefix(xs[1..], x);
    }
  }

  lemma IndexOfLast<T>(xs: seq<T>)
    requires |xs| > 0 && xs[|xs| - 1] !in xs[..|xs| - 1]
    ensures IndexOf(xs, xs[|xs| - 1]) == |xs| - 1
  {
  }

  lemma {:induction false} OccurrenceSumEmpty<T>(keys: seq<T>)
    ensures OccurrenceSum(keys, []) == 0
  {
    if keys != [] {
      OccurrenceSumEmpty(keys[1..]);
    }
  }

  lemma {:induction false} OccurrenceSumCons<T>(keys: seq<T>, a: T, rest: seq<T>)
    requires Distinct(keys)
    ensures OccurrenceSum(keys, [a] + rest) == OccurrenceSum(keys, rest) + (if a in keys then 1 else 0)
  {
    if keys != [] {
      assert Distinct(keys[1..]) by {
        forall i, j | 0 <= i < j < |keys[1..]| ensures keys[1..][i] != keys[1..][j] {
          assert keys[1..][i] == keys[i + 1] && keys[1..][j] == keys[j + 1];
        }
      }
      OccurrenceSumCons(keys[1..], a, rest);
      assert multiset([a] + rest) == multiset{a} + multiset(rest);
      if a == keys[0] {
        assert a !in keys[1..] by {
          forall j | 0 <= j < |keys[1..]| ensures keys[1..][j] != a {
            assert keys[1..][j] == keys[j + 1];
          }
        }
      } else {
        assert a in keys <==> a in keys[1..];
      }
    }
  }

  /**
    Counting every element of `xs` under a list of distinct keys that covers all
    of its elements accounts for each element exactly once.
  */
  lemma {:induction false} OccurrenceSumCovers<T>(keys: seq<T>, xs: seq<T>)
    requires Distinct(keys)
    requires forall x :: x in xs ==> x in keys
    ensures OccurrenceSum(keys, xs) == |xs|
    decreases |xs|
  {
    if xs == [] {
      OccurrenceSumEmpty(keys);
    } else {
      OccurrenceSumCovers(keys, xs[1..]);
      OccurrenceSumCons(keys, xs[0], xs[1..]);
      assert [xs[0]] + xs[1..] == xs;
    }
  }

  /** Adjacent elements are in the order `le`. */
  predicate SortedBy<T>(xs: seq<T>, le: (T, T) -> bool) {
    forall i :: 0 <= i < |xs| - 1 ==> le(xs[i], xs[i + 1])
  }

  /** Inserts `x` before the first element it may precede. */
  function InsertBy<T>(x: T, ys: seq<T>, le: (T, T) -> bool): (r: seq<T>)
    ensures multiset(r) == multiset{x} + multiset(ys)
    decreases |ys|
  {
    if ys == [] || le(x, ys[0]) then [x] + ys
    else
      var rest := InsertBy(x, ys[1..], le);
      assert ys == [ys[0]] + ys[1..];
      [ys[0]] + rest
  }

  /** Insertion sort: the order `sorted` produces when `le` is a total order. */
  function SortBy<T>(xs: seq<T>, le: (T, T) -> bool): (r: seq<T>)
    ensures multiset(r) == multiset(xs)
    decreases |xs|
  {
    if xs == [] then []
    else
      assert xs == [xs[0]] + xs[1..];
      InsertBy(xs[0], SortBy(xs[1..], le), le)
  }

  lemma {:induction false} InsertBySorted<T>(x: T, ys: seq<T>, le: (T, T) -> bool)
    requires forall a, b :: le(a, b) || le(b, a)
    requires SortedBy(ys, le)
    ensures SortedBy(InsertBy(x, ys, le), le)
    decreases |ys|
  {
    if ys != [] && !le(x, ys[0]) {
      var rest := InsertBy(x, ys[1..], le);
      InsertBySorted(x, ys[1..], le);
      assert rest[0] in multiset(rest);
      assert rest[0] == x || rest[0] in multiset(ys[1..]);
      if rest[0] != x {
        assert ys[1..] != [] && rest[0] == ys[1..][0] by {
          InsertByHead(x, ys[1..], le);
        }
      }
    }
  }

  /** The head of an insertion is the inserted element or the old head. */
  lemma InsertByHead<T>(x: T, ys: seq<T>, le: (T, T) -> bool)
    ensures InsertBy(x, ys, le)[0] == x || (ys != [] && InsertBy(x, ys, le)[0] == ys[0])
  {
  }

  /** With a total order, the result of `SortBy` is sorted. */
  lemma {:induction false} SortBySorted<T>(xs: seq<T>, le: (T, T) -> bool)
    requires forall a, b :: le(a, b) || le(b, a)
    ensures SortedBy(SortBy(xs, le), le)
    decreases |xs|
  {
    if xs != [] {
      SortBySorted(xs[1..], le);
      InsertBySorted(xs[0], SortBy(xs[1..], le), le);
    }
  }

  /** Sequences with the same elements, counted with multiplicity, are both distinct or both not. */
  lemma DistinctPermutation<T>(xs: seq<T>, ys: seq<T>)
    requires multiset(xs) == multiset(ys) && Distinct(xs)
    ensures Distinct(ys)
  {
    DistinctMultiplicity(xs);
    DistinctMultiplicity(ys);
  }

  /** A sequence is distinct exactly when no element occurs in it twice. */
  lemma {:induction false} DistinctMultiplicity<T>(xs: seq<T>)
    ensures Distinct(xs) <==> forall x :: multiset(xs)[x] <= 1
    decreases |xs|
  {
    if xs != [] {
      var t := xs[1..];
      DistinctMultiplicity(t);
      assert xs == [xs[0]] + t;
      assert multiset(xs) == multiset{xs[0]} + multiset(t);
      if Distinct(xs) {
        assert Distinct(t) by {
          forall i, j | 0 <= i < j < |t| ensures t[i] != t[j] {
            assert t[i] == xs[i + 1] && t[j] == xs[j + 1];
          }
        }
        assert xs[0] !in t by {
          forall j | 0 <= j < |t| ensures t[j] != xs[0] {
            assert t[j] == xs[j + 1];
          }
        }
      } else {
        var i, j :| 0 <= i < j < |xs| && xs[i] == xs[j];
        if i == 0 {
          assert xs[j] == t[j - 1];
          assert multiset(xs)[xs[0]] >= 2;
        } else {
          assert t[i - 1] == xs[i] && t[j - 1] == xs[j];
          assert !Distinct(t);
          var y :| multiset(t)[y] > 1;
          assert multiset(xs)[y] > 1;
        }
      }
    }
  }

  /** Inserting a key into the key list adds that key's count to the sum. */
  lemma {:induction false} OccurrenceSumInsert<T>(x: T, keys: seq<T>, le: (T, T) -> bool, xs: seq<T>)
    ensures OccurrenceSum(InsertBy(x, keys, le), xs) == multiset(xs)[x] + OccurrenceSum(keys, xs)
    decreases |keys|
  {
    if keys != [] && !le(x, keys[0]) {
      OccurrenceSumInsert(x, keys[1..], le, xs);
      assert ([keys[0]] + InsertBy(x, keys[1..], le))[1..] == InsertBy(x, keys[1..], le);
    }
  }

  /** The sum of key counts does not depend on the order of the keys. */
  lemma {:induction false} OccurrenceSumSort<T>(keys: seq<T>, le: (T, T) -> bool, xs: seq<T>)
    ensures OccurrenceSum(SortBy(keys, le), xs) == OccurrenceSum(keys, xs)
    decreases |keys|
  {
    if keys != [] {
      OccurrenceSumSort(keys[1..], le, xs);
      OccurrenceSumInsert(keys[0], SortBy(keys[1..], le), le, xs);
    }
  }

  /**
    A Python `dict`: a map that remembers the order in which its keys were
    first inserted.
  */
  datatype Dict<K(==,!new), V> = Dict(keys: seq<K>, entries: map<K, V>) {

    ghost predicate Valid() {
      Distinct(keys) && forall k :: k in entries <==> k in keys
    }

    /** `d[k] = v`: a new key goes to the end, an existing key keeps its place. */
    function Put(k: K, v: V): (d: Dict<K, V>)
      requires Valid()
      ensures d.Valid()
      ensures d.entries == entries[k := v]
      ensures k in keys ==> d.keys == keys
      ensures k !in keys ==> d.keys == keys + [k]
    {
      if k in entries then Dict(keys, entries[k := v]) else Dict(keys + [k], entries[k := v])
    }
  }

  /** The empty `{}`. */
  function EmptyDict<K(==,!new), V>(): Dict<K, V>
  {
    Dict([], map[])
  }
}
