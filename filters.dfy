/**
  The sidebar filters of `main`: each select box offers a sentinel followed by
  the sorted distinct values of one column, and the records shown are those
  that pass every selection that is not its sentinel.
*/
module Filters {
  import opened Seqs
  import opened Text
  import opened Records

  /** The "no filter" entries of the three select boxes. */
  const AllPriorities: string := "Todas"
  const AllStatuses: string := "Todos"
  const AllNetworks: string := "Todas"

  /** `a` may come before `b` in `sorted` order. */
  predicate NotAfter(a: string, b: string) {
    !Less(b, a)
  }

  /** Python's `sorted` on a list of strings. */
  function SortStrings(xs: seq<string>): (r: seq<string>)
    ensures multiset(r) == multiset(xs)
  {
    SortBy(xs, NotAfter)
  }

  /** `[sentinel] + sorted(values.unique().tolist())`. */
  function Options(sentinel: string, values: seq<string>): (opts: seq<string>)
    ensures |opts| >= 1 && opts[0] == sentinel
  {
    [sentinel] + SortStrings(Unique(values))
  }

  /** Strictly increasing in Python's string order. */
  predicate Increasing(xs: seq<string>) {
    forall i, j :: 0 <= i < j < |xs| ==> Less(xs[i], xs[j])
  }

  /**
    After the sentinel, an option list holds every distinct value once, in
    strictly increasing order, and nothing else.
  */
  lemma OptionsListing(sentinel: string, values: seq<string>)
    ensures var tail := Options(sentinel, values)[1..];
      && (forall v :: v in tail <==> v in values)
      && Distinct(tail)
      && Increasing(tail)
  {
    var u := Unique(values);
    var tail := SortStrings(u);
    assert Options(sentinel, values)[1..] == tail;
    assert forall v :: v in tail <==> v in multiset(u);
    DistinctPermutation(u, tail);
    forall a, b ensures NotAfter(a, b) || NotAfter(b, a) {
      if Less(b, a) {
        LessAsymmetric(b, a);
      }
    }
    SortBySorted(u, NotAfter);
    forall i | 0 <= i < |tail| - 1 ensures Less(tail[i], tail[i + 1]) {
      LessTotal(tail[i], tail[i + 1]);
    }
    AdjacentIncreasing(tail);
  }

  lemma {:induction false} AdjacentIncreasing(xs: seq<string>)
    requires forall i :: 0 <= i < |xs| - 1 ==> Less(xs[i], xs[i + 1])
    ensures Increasing(xs)
    decreases |xs|
  {
    if xs != [] {
      var t := xs[1..];
      AdjacentIncreasing(t);
      forall j | 0 < j < |xs| ensures Less(xs[0], xs[j]) {
        if j > 1 {
          assert Less(t[0], t[j - 1]);
          LessTransitive(xs[0], xs[1], xs[j]);
        }
      }
    }
  }

  /** The choices of the three select boxes. */
  datatype Selection = Selection(priorityLine: string, status: string, network: string)

  /** The selection the page starts with: every box at its sentinel. */
  const NoSelection: Selection := Selection(AllPriorities, AllStatuses, AllNetworks)

  /** A record passes the three filters of `sel`; a sentinel passes everything. */
  predicate Admits(sel: Selection, p: Project) {
    && (sel.priorityLine == AllPriorities || p.priorityLine == sel.priorityLine)
    && (sel.status == AllStatuses || p.status == sel.status)
    && (sel.network == AllNetworks || p.network == sel.network)
  }

  /** The records of `df` that pass every selection, in their original order. */
  function FilterView(df: seq<Project>, sel: Selection): seq<Project> {
    Filter(df, p => Admits(sel, p))
  }

  /**
    The filtering of `main`: a copy of the records, narrowed by one equality
    filter per select box whose choice is not its sentinel, in the order
    priority line, status, network.
  */
  method ApplyFilters(df: seq<Project>, sel: Selection) returns (filtered: seq<Project>)
    ensures filtered == FilterView(df, sel)
  {
    filtered := df;
    ghost var done := (p: Project) => true;
    FilterAll(df, done);
    if sel.priorityLine != AllPriorities {
      filtered := Filter(filtered, (p: Project) => p.priorityLine == sel.priorityLine);
    }
    ghost var pDone := (p: Project) => sel.priorityLine == AllPriorities || p.priorityLine == sel.priorityLine;
    assert filtered == Filter(df, pDone) by {
      if sel.priorityLine == AllPriorities {
        FilterAll(df, pDone);
      } else {
        FilterFilter(df, done, (p: Project) => p.priorityLine == sel.priorityLine, pDone);
      }
    }
    if sel.status != AllStatuses {
      filtered := Filter(filtered, (p: Project) => p.status == sel.status);
    }
    ghost var sDone := (p: Project) => pDone(p) && (sel.status == AllStatuses || p.status == sel.status);
    assert filtered == Filter(df, sDone) by {
      if sel.status == AllStatuses {
        FilterFilter(df, pDone, (p: Project) => true, sDone);
        FilterAll(Filter(df, pDone), (p: Project) => true);
      } else {
        FilterFilter(df, pDone, (p: Project) => p.status == sel.status, sDone);
      }
    }
    if sel.network != AllNetworks {
      filtered := Filter(filtered, (p: Project) => p.network == sel.network);
    }
    ghost var nDone := (p: Project) => sDone(p) && (sel.network == AllNetworks || p.network == sel.network);
    assert filtered == Filter(df, nDone) by {
      if sel.network == AllNetworks {
        FilterFilter(df, sDone, (p: Project) => true, nDone);
        FilterAll(Filter(df, sDone), (p: Project) => true);
      } else {
        FilterFilter(df, sDone, (p: Project) => p.network == sel.network, nDone);
      }
    }
    FilterExtensional(df, nDone, p => Admits(sel, p));
  }

  /** With every box at its sentinel the whole record set is shown. */
  lemma NoSelectionShowsAll(df: seq<Project>)
    ensures FilterView(df, NoSelection) == df
  {
    FilterAll(df, p => Admits(NoSelection, p));
  }

  /** A record is shown exactly when it is one of the records and passes every selection. */
  lemma FilterViewMembers(df: seq<Project>, sel: Selection, p: Project)
    ensures p in FilterView(df, sel) <==> p in df && Admits(sel, p)
  {
    if p in df && Admits(sel, p) {
      FilterKeeps(df, q => Admits(sel, q), p);
    }
  }

  /** The records shown keep their relative order: the view is a subsequence of the records. */
  lemma FilterViewOrder(df: seq<Project>, sel: Selection)
    ensures Subsequence(FilterView(df, sel), df)
  {
    FilterSubsequence(df, p => Admits(sel, p));
  }

  /** The three equality filters commute: applying them network first gives the same view. */
  lemma FiltersCommute(df: seq<Project>, sel: Selection)
    ensures var byPriority := (p: Project) => sel.priorityLine == AllPriorities || p.priorityLine == sel.priorityLine;
      var byStatus := (p: Project) => sel.status == AllStatuses || p.status == sel.status;
      var byNetwork := (p: Project) => sel.network == AllNetworks || p.network == sel.network;
      Filter(Filter(Filter(df, byNetwork), byStatus), byPriority) == FilterView(df, sel)
  {
    var byPriority := (p: Project) => sel.priorityLine == AllPriorities || p.priorityLine == sel.priorityLine;
    var byStatus := (p: Project) => sel.status == AllStatuses || p.status == sel.status;
    var byNetwork := (p: Project) => sel.network == AllNetworks || p.network == sel.network;
    var ns := (p: Project) => byNetwork(p) && byStatus(p);
    FilterFilter(df, byNetwork, byStatus, ns);
    FilterFilter(df, ns, byPriority, p => Admits(sel, p));
  }

  /** Narrowing never adds records: the view is no longer than the record set. */
  lemma FilterViewSize(df: seq<Project>, sel: Selection)
    ensures |FilterView(df, sel)| <= |df|
    ensures FilterView(df, sel) == [] <==> forall p :: p in df ==> !Admits(sel, p)
  {
    if FilterView(df, sel) != [] {
      assert FilterView(df, sel)[0] in FilterView(df, sel);
    }
    forall p | p in df && Admits(sel, p) ensures FilterView(df, sel) != [] {
      FilterViewMembers(df, sel, p);
    }
  }
}
