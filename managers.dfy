/**
  The manager chart of `create_managers_chart`: the records whose manager is
  a real name, and how many studies each such manager has, most first.
*/
module Managers {
  import opened Wrappers
  import opened Seqs
  import opened Text
  import opened Records

  /** The placeholder the export uses for a missing manager. */
  const Placeholder: string := "xxxxx"

  /** A manager that is non-empty and does not contain the placeholder, in any case. */
  predicate IsValidManager(manager: string) {
    manager != "" && !Contains(Lower(manager), Placeholder)
  }

  /** A manager marked with the placeholder, in any case, is not counted. */
  lemma PlaceholderExcluded(suffix: string)
    ensures !IsValidManager("XXXXX" + suffix) && !IsValidManager("xxxxx" + suffix)
  {
    assert OccursAt(Lower("XXXXX" + suffix), Placeholder, 0);
    assert OccursAt(Lower("xxxxx" + suffix), Placeholder, 0);
  }

  /** `valid_managers['manager']`: the managers of the records that have a valid one, in order. */
  function ValidManagers(view: seq<Project>): (ms: seq<string>)
    ensures forall i :: 0 <= i < |ms| ==> IsValidManager(ms[i])
  {
    var valid := Filter(view, (p: Project) => IsValidManager(p.manager));
    assert forall i :: 0 <= i < |valid| ==> valid[i] in valid;
    Map(valid, (p: Project) => p.manager)
  }

  /** How often `v` occurs in `xs`. */
  function Count(xs: seq<string>, v: string): nat {
    multiset(xs)[v]
  }

  /** Names of a list of counts. */
  function Names(counts: seq<(string, nat)>): seq<string>
  {
    Map(counts, (c: (string, nat)) => c.0)
  }

  /** Sum of a list of counts. */
  function Total(counts: seq<(string, nat)>): nat {
    if counts == [] then 0 else counts[0].1 + Total(counts[1..])
  }

  /**
    `Series.value_counts()`: each distinct value with its number of
    occurrences, the most frequent first. Values with equal counts keep the
    order of their first occurrence.
  */
  function ValueCounts(xs: seq<string>): seq<(string, nat)> {
    var names := SortBy(Unique(xs), ByCount(xs));
    Map(names, (n: string) => (n, Count(xs, n)))
  }

  /** The order `value_counts` sorts by: more occurrences first. */
  function ByCount(xs: seq<string>): (string, string) -> bool {
    (a: string, b: string) => Count(xs, a) >= Count(xs, b)
  }

  /** The listed values are exactly the values of `xs`, each once. */
  lemma ValueCountsNames(xs: seq<string>)
    ensures forall v :: v in Names(ValueCounts(xs)) <==> v in xs
    ensures Distinct(Names(ValueCounts(xs)))
  {
    var u := Unique(xs);
    var names := SortBy(u, ByCount(xs));
    assert Names(ValueCounts(xs)) == names;
    assert forall v :: v in names <==> v in multiset(u);
    DistinctPermutation(u, names);
  }

  /** Each value is listed with its number of occurrences, which is positive. */
  lemma ValueCountsCounts(xs: seq<string>)
    ensures var r := ValueCounts(xs);
      forall i :: 0 <= i < |r| ==> r[i].1 == Count(xs, r[i].0) && r[i].1 > 0
  {
    var names := SortBy(Unique(xs), ByCount(xs));
    var r := ValueCounts(xs);
    forall i | 0 <= i < |r| ensures r[i].1 == Count(xs, r[i].0) && r[i].1 > 0 {
      assert names[i] in multiset(names);
      assert names[i] in xs;
    }
  }

  /** Counts never increase down the list. */
  lemma ValueCountsOrder(xs: seq<string>)
    ensures var r := ValueCounts(xs);
      forall i, j :: 0 <= i < j < |r| ==> r[i].1 >= r[j].1
  {
    SortBySorted(Unique(xs), ByCount(xs));
    NonIncreasing(ValueCounts(xs));
  }

  /** The counts add up to the number of values counted. */
  lemma ValueCountsTotal(xs: seq<string>)
    ensures Total(ValueCounts(xs)) == |xs|
  {
    var u := Unique(xs);
    TotalOfCounts(SortBy(u, ByCount(xs)), xs);
    OccurrenceSumSort(u, ByCount(xs), xs);
    OccurrenceSumCovers(u, xs);
  }

  lemma {:induction false} NonIncreasing(r: seq<(string, nat)>)
    requires forall i :: 0 <= i < |r| - 1 ==> r[i].1 >= r[i + 1].1
    ensures forall i, j :: 0 <= i < j < |r| ==> r[i].1 >= r[j].1
    decreases |r|
  {
    if |r| > 1 {
      NonIncreasing(r[1..]);
      forall j | 1 <= j < |r| ensures r[0].1 >= r[j].1 {
        assert r[1..][0] == r[1] && r[1..][j - 1] == r[j];
      }
    }
  }

  lemma {:induction false} TotalOfCounts(names: seq<string>, xs: seq<string>)
    ensures Total(Map(names, (n: string) => (n, Count(xs, n)))) == OccurrenceSum(names, xs)
    decreases |names|
  {
    if names != [] {
      TotalOfCounts(names[1..], xs);
      assert Map(names, (n: string) => (n, Count(xs, n)))[1..] == Map(names[1..], (n: string) => (n, Count(xs, n)));
    }
  }

  /** The data of the chart, or `None` when there is no valid manager to show. */
  function ManagerCounts(view: seq<Project>): (r: Option<seq<(string, nat)>>)
    ensures r.Some? ==> |r.value| > 0
  {
    var counts := ValueCounts(ValidManagers(view));
    if |counts| > 0 then Some(counts) else None
  }

  /** There is no chart exactly when no record has a valid manager. */
  lemma ManagerCountsNone(view: seq<Project>)
    ensures ManagerCounts(view).None? <==> forall p :: p in view ==> !IsValidManager(p.manager)
  {
    var valid := Filter(view, (p: Project) => IsValidManager(p.manager));
    ValueCountsNames(ValidManagers(view));
    if p :| p in view && IsValidManager(p.manager) {
      FilterKeeps(view, (q: Project) => IsValidManager(q.manager), p);
      assert ValidManagers(view)[0] in ValidManagers(view);
    } else {
      assert valid == [];
    }
  }

  /**
    The chart lists only valid managers, each once with its number of
    records, most first, and the counts add up to the number of records with
    a valid manager.
  */
  lemma ManagerCountsFacts(view: seq<Project>)
    requires ManagerCounts(view).Some?
    ensures var r := ManagerCounts(view).value; var ms := ValidManagers(view);
      && (forall m :: m in Names(r) <==> m in ms)
      && (forall m :: m in Names(r) ==> IsValidManager(m))
      && Distinct(Names(r))
      && (forall i :: 0 <= i < |r| ==> r[i].1 == Count(ms, r[i].0))
      && (forall i, j :: 0 <= i < j < |r| ==> r[i].1 >= r[j].1)
      && Total(r) == |Filter(view, (p: Project) => IsValidManager(p.manager))|
  {
    var ms := ValidManagers(view);
    ValueCountsNames(ms);
    ValueCountsCounts(ms);
    ValueCountsOrder(ms);
    ValueCountsTotal(ms);
    forall m | m in Names(ManagerCounts(view).value) ensures IsValidManager(m) {
      var i :| 0 <= i < |ms| && ms[i] == m;
    }
  }
}
