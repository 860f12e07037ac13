/**
  The kanban board of `create_kanban_board`: one column per distinct status,
  in order of first appearance, holding the records with exactly that status,
  and a parallel dict giving each column its colour.
*/
module Kanban {
  import opened Seqs
  import opened Records
  import opened StatusColors
  import opened Text

  /** The status column, `df['status']`. */
  function Statuses(view: seq<Project>): seq<string>
  {
    Map(view, (p: Project) => p.status)
  }

  /** `df[df['status'] == status]`. */
  function Group(view: seq<Project>, status: string): seq<Project> {
    Filter(view, (p: Project) => p.status == status)
  }

  /** `create_kanban_board`: the groups dict and the colour dict, both keyed by the distinct statuses. */
  method CreateKanbanBoard(view: seq<Project>)
      returns (groups: Dict<string, seq<Project>>, columns: Dict<string, string>)
    ensures columns.Valid() && groups.Valid()
    ensures columns.keys == Unique(Statuses(view))
    ensures groups.keys == Unique(Statuses(view))
    ensures forall s :: s in columns.entries ==> columns.entries[s] == StatusColor(s)
    ensures forall s :: s in groups.entries ==> groups.entries[s] == Group(view, s)
  {
    var uniqueStatuses := Unique(Statuses(view));
    columns := ColourColumns(uniqueStatuses);
    groups := GroupByStatus(view, uniqueStatuses);
  }

  /** The first loop: `kanban_columns[status] = get_status_color(status)` for each distinct status. */
  method ColourColumns(uniqueStatuses: seq<string>) returns (columns: Dict<string, string>)
    requires Distinct(uniqueStatuses)
    ensures columns.Valid() && columns.keys == uniqueStatuses
    ensures forall s :: s in columns.entries ==> columns.entries[s] == StatusColor(s)
  {
    columns := EmptyDict();
    for i := 0 to |uniqueStatuses|
      invariant columns.Valid() && columns.keys == uniqueStatuses[..i]
      invariant forall s :: s in columns.entries ==> columns.entries[s] == Classify(Rules, Lower(s))
    {
      var status := uniqueStatuses[i];
      var colour := StatusColor(status);
      StatusColorIsClassify(status);
      NotYetInserted(uniqueStatuses, i);
      columns := columns.Put(status, colour);
      TakeSnoc(uniqueStatuses, i);
    }
    assert uniqueStatuses[..|uniqueStatuses|] == uniqueStatuses;
    ColumnsColoured(columns);
  }

  /**
    The second loop: for each distinct status, `df[df['status'] == status]`,
    stored when it is not empty, which it never is.
  */
  method GroupByStatus(view: seq<Project>, uniqueStatuses: seq<string>) returns (groups: Dict<string, seq<Project>>)
    requires Distinct(uniqueStatuses)
    requires forall s :: s in uniqueStatuses ==> s in Statuses(view)
    ensures groups.Valid() && groups.keys == uniqueStatuses
    ensures forall s :: s in groups.entries ==> groups.entries[s] == Group(view, s)
  {
    groups := EmptyDict();
    for i := 0 to |uniqueStatuses|
      invariant groups.Valid() && groups.keys == uniqueStatuses[..i]
      invariant forall s :: s in groups.entries ==> groups.entries[s] == Group(view, s)
    {
      var status := uniqueStatuses[i];
      var projects := Group(view, status);
      NotYetInserted(uniqueStatuses, i);
      if projects != [] {
        groups := groups.Put(status, projects);
      } else {
        GroupNonEmpty(view, status);
        assert false;
      }
      TakeSnoc(uniqueStatuses, i);
    }
    assert uniqueStatuses[..|uniqueStatuses|] == uniqueStatuses;
  }

  lemma ColumnsColoured(columns: Dict<string, string>)
    requires forall s :: s in columns.entries ==> columns.entries[s] == Classify(Rules, Lower(s))
    ensures forall s :: s in columns.entries ==> columns.entries[s] == StatusColor(s)
  {
    forall s | s in columns.entries ensures columns.entries[s] == StatusColor(s) {
      StatusColorIsClassify(s);
    }
  }

  lemma NotYetInserted(u: seq<string>, i: nat)
    requires i < |u| && Distinct(u)
    ensures u[i] !in u[..i]
  {
  }

  /** A group holds exactly the records with that status. */
  lemma GroupMembers(view: seq<Project>, status: string, p: Project)
    ensures p in Group(view, status) <==> p in view && p.status == status
  {
    if p in view && p.status == status {
      FilterKeeps(view, (q: Project) => q.status == status, p);
    }
  }

  /** A group lists its records in input order. */
  lemma GroupOrder(view: seq<Project>, status: string)
    ensures Subsequence(Group(view, status), view)
  {
    FilterSubsequence(view, (p: Project) => p.status == status);
  }

  /** A group has as many records as there are records with that status. */
  lemma {:induction false} GroupSize(view: seq<Project>, status: string)
    ensures |Group(view, status)| == multiset(Statuses(view))[status]
    decreases |view|
  {
    if view != [] {
      GroupSize(view[1..], status);
      assert Statuses(view) == [view[0].status] + Statuses(view[1..]);
    }
  }

  /** Every status that occurs has a non-empty group, so no column is empty. */
  lemma GroupNonEmpty(view: seq<Project>, status: string)
    ensures status in Statuses(view) <==> Group(view, status) != []
  {
    GroupSize(view, status);
  }

  /** Sum of the sizes of the groups of the given statuses. */
  function GroupSizeSum(statuses: seq<string>, view: seq<Project>): nat {
    if statuses == [] then 0 else |Group(view, statuses[0])| + GroupSizeSum(statuses[1..], view)
  }

  lemma {:induction false} GroupSizeSumIsOccurrences(statuses: seq<string>, view: seq<Project>)
    ensures GroupSizeSum(statuses, view) == OccurrenceSum(statuses, Statuses(view))
    decreases |statuses|
  {
    if statuses != [] {
      GroupSize(view, statuses[0]);
      GroupSizeSumIsOccurrences(statuses[1..], view);
    }
  }

  /** The groups partition the records: their sizes add up to the number of records. */
  lemma GroupsPartition(view: seq<Project>)
    ensures GroupSizeSum(Unique(Statuses(view)), view) == |view|
  {
    GroupSizeSumIsOccurrences(Unique(Statuses(view)), view);
    OccurrenceSumCovers(Unique(Statuses(view)), Statuses(view));
  }

  /** Every record sits in the column of its own status and in no other. */
  lemma ExactlyOneGroup(view: seq<Project>, p: Project)
    requires p in view
    ensures p.status in Unique(Statuses(view)) && p in Group(view, p.status)
    ensures forall s :: s != p.status ==> p !in Group(view, s)
  {
    var i :| 0 <= i < |view| && view[i] == p;
    assert Statuses(view)[i] == p.status;
    GroupMembers(view, p.status, p);
  }

  /** Columns come in the order in which their statuses first occur. */
  lemma ColumnOrder(view: seq<Project>)
    ensures var keys := Unique(Statuses(view));
      forall i, j :: 0 <= i < j < |keys| ==> IndexOf(Statuses(view), keys[i]) < IndexOf(Statuses(view), keys[j])
  {
    UniqueFirstAppearance(Statuses(view));
  }
}
