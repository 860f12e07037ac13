/**
  The headline metrics of `create_metrics`: total, active and completed
  records with their shares of the total, and the number of priority lines.
  The two regular expressions are modelled as keyword tests on the lowered
  status; `a.*b` is "`a`, then `b` later on the same line".
*/
module Metrics {
  import opened Wrappers
  import opened Seqs
  import opened Text
  import opened Records
  import opened Filters

  /** `Ejecucion|Ejecución|Enviado.*Comité|Validacion`, ignoring case. */
  predicate IsActive(status: string) {
    var s := Lower(status);
    Contains(s, "ejecucion") || Contains(s, "ejecución") || FollowedBy(s, "enviado", "comité")
      || Contains(s, "validacion")
  }

  /**
    `Reporte.*Resultado|Completo|completo|IRRI.*completo`, ignoring case; the
    two spellings of `completo` are one test once case is ignored.
  */
  predicate IsCompleted(status: string) {
    var s := Lower(status);
    FollowedBy(s, "reporte", "resultado") || Contains(s, "completo") || FollowedBy(s, "irri", "completo")
  }

  /** The `IRRI.*completo` branch adds nothing: whatever it matches contains `completo`. */
  lemma CompletedSimplified(status: string)
    ensures IsCompleted(status) <==>
      FollowedBy(Lower(status), "reporte", "resultado") || Contains(Lower(status), "completo")
  {
    var s := Lower(status);
    if FollowedBy(s, "irri", "completo") {
      var i, j :| 0 <= i && i + 4 <= j <= |s| - 8 && OccursAt(s, "irri", i) && OccursAt(s, "completo", j)
        && '\n' !in s[i + 4..j];
      assert OccursAt(s, "completo", j);
    }
  }

  /** The record's status is active. */
  predicate ActiveRecord(p: Project) {
    IsActive(p.status)
  }

  /** The record's status is completed. */
  predicate CompletedRecord(p: Project) {
    IsCompleted(p.status)
  }

  /** `len(df[... str.contains(active) ...])`. */
  function CountActive(view: seq<Project>): (n: nat)
    ensures n <= |view|
  {
    |Filter(view, ActiveRecord)|
  }

  /** `len(df[... str.contains(completed) ...])`. */
  function CountCompleted(view: seq<Project>): (n: nat)
    ensures n <= |view|
  {
    |Filter(view, CompletedRecord)|
  }

  /** The active records and the others together are all the records. */
  lemma ActivePartition(view: seq<Project>)
    ensures CountActive(view) + |Filter(view, (p: Project) => !IsActive(p.status))| == |view|
  {
    FilterPartition(view, ActiveRecord, (p: Project) => !IsActive(p.status));
  }

  /** The completed records and the others together are all the records. */
  lemma CompletedPartition(view: seq<Project>)
    ensures CountCompleted(view) + |Filter(view, (p: Project) => !IsCompleted(p.status))| == |view|
  {
    FilterPartition(view, CompletedRecord, (p: Project) => !IsCompleted(p.status));
  }

  /**
    The two counts are independent: a status can be both active and
    completed, so one record can add to both and the two together can exceed
    the total.
  */
  lemma CountedTwice(p: Project)
    requires Contains(Lower(p.status), "ejecucion") && Contains(Lower(p.status), "completo")
    ensures CountActive([p]) == 1 && CountCompleted([p]) == 1
  {
    assert IsActive(p.status) && IsCompleted(p.status);
  }

  /** `df['priority_line'].nunique()`. */
  function PriorityLineCount(view: seq<Project>): (n: nat)
    ensures n <= |view|
    ensures n == 0 <==> view == []
  {
    var lines := Map(view, (p: Project) => p.priorityLine);
    assert view != [] ==> lines[0] in Unique(lines);
    |Unique(lines)|
  }

  /**
    `part/len(df)*100` as written: Python raises `ZeroDivisionError` when the
    view is empty.
  */
  function PercentAsWritten(part: nat, total: nat): (r: Result<real, string>)
    ensures r.Failure? <==> total == 0
    ensures r.Success? ==> r.value * total as real == part as real * 100.0
  {
    if total == 0 then Failure("ZeroDivisionError") else Success(part as real / total as real * 100.0)
  }

  /** The share of `part` in `total`, in percent, and no share of nothing. */
  function Percent(part: nat, total: nat): (r: real)
    ensures total == 0 ==> r == 0.0
    ensures total > 0 ==> r * total as real == part as real * 100.0
    ensures part <= total ==> 0.0 <= r <= 100.0
  {
    if total == 0 then 0.0 else part as real / total as real * 100.0
  }

  /** Where the division succeeds the two agree. */
  lemma PercentAgrees(part: nat, total: nat)
    requires total > 0
    ensures PercentAsWritten(part, total) == Success(Percent(part, total))
  {
  }

  /** `share` is `part` as a percentage of a positive `total`. */
  predicate ShareOf(share: real, part: nat, total: nat) {
    total > 0 ==> share * total as real == part as real * 100.0
  }

  /** The share `Percent` computes is the part's percentage of the total. */
  lemma PercentShare(part: nat, total: nat)
    ensures ShareOf(Percent(part, total), part, total)
  {
  }

  /** The four metric cards. */
  datatype Metrics = Metrics(
    total: nat,
    active: nat,
    activeShare: real,
    completed: nat,
    completedShare: real,
    priorityLines: nat)

  /** `create_metrics` with the shares computed by `Percent`. */
  function CreateMetrics(view: seq<Project>): (m: Metrics)
    ensures m.total == |view|
    ensures m.active == CountActive(view) && m.completed == CountCompleted(view)
    ensures m.priorityLines == PriorityLineCount(view)
    ensures m.active <= m.total && m.completed <= m.total && m.priorityLines <= m.total
    ensures ShareOf(m.activeShare, m.active, m.total) && ShareOf(m.completedShare, m.completed, m.total)
    ensures 0.0 <= m.activeShare <= 100.0 && 0.0 <= m.completedShare <= 100.0
    ensures view == [] ==> m.activeShare == 0.0 && m.completedShare == 0.0
  {
    var total := |view|;
    var active := CountActive(view);
    var completed := CountCompleted(view);
    PercentShare(active, total);
    PercentShare(completed, total);
    Metrics(total, active, Percent(active, total), completed, Percent(completed, total),
            PriorityLineCount(view))
  }

  /**
    The page only checks that the loaded records are not empty. Any two
    records with different priority lines and different statuses let the
    select boxes offer the priority line of one and the status of the other;
    nothing is then shown, and the active share divides by zero.
  */
  lemma EmptySelectionDividesByZero(a: Project, b: Project)
    requires a.priorityLine != b.priorityLine && a.status != b.status
    requires a.priorityLine != AllPriorities && b.status != AllStatuses
    ensures var df := [a, b]; var sel := Selection(a.priorityLine, b.status, AllNetworks);
      && sel.priorityLine in Options(AllPriorities, Map(df, (p: Project) => p.priorityLine))
      && sel.status in Options(AllStatuses, Map(df, (p: Project) => p.status))
      && FilterView(df, sel) == []
      && PercentAsWritten(CountActive(FilterView(df, sel)), |FilterView(df, sel)|).Failure?
  {
    var df := [a, b];
    var sel := Selection(a.priorityLine, b.status, AllNetworks);
    Offered(AllPriorities, Map(df, (p: Project) => p.priorityLine), 0);
    Offered(AllStatuses, Map(df, (p: Project) => p.status), 1);
    assert !Admits(sel, a) && !Admits(sel, b);
    assert Filter([b], (p: Project) => Admits(sel, p)) == [];
    assert FilterView(df, sel) == [];
  }

  /** Every value of a column is offered by its select box. */
  lemma Offered(sentinel: string, values: seq<string>, i: nat)
    requires i < |values|
    ensures values[i] in Options(sentinel, values)
  {
    OptionsListing(sentinel, values);
    assert values[i] in Options(sentinel, values)[1..];
  }
}
