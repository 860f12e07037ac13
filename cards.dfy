/**
  The text of a kanban card: study, manager and network, each cut to a fixed
  width and marked with an ellipsis when something was cut.
*/
module Cards {
  import opened Records

  const Ellipsis: string := "..."

  const StudyWidth: nat := 70
  const ManagerWidth: nat := 30
  const NetworkWidth: nat := 40

  /** Python's `s[:n]`, which stops at the end of a shorter string. */
  function Head(s: string, n: nat): string
  {
    if |s| <= n then s else s[..n]
  }

  /** `s[:n] + ('...' if len(s) > n else '')`. */
  function Truncate(s: string, n: nat): string {
    Head(s, n) + (if |s| > n then Ellipsis else "")
  }

  /**
    A string that fits is shown unchanged; a longer one is shown as its first
    `n` characters followed by the ellipsis, so nothing shown is longer than
    `n + 3`.
  */
  lemma TruncateShape(s: string, n: nat)
    ensures |s| <= n ==> Truncate(s, n) == s
    ensures |s| > n ==> Truncate(s, n) == s[..n] + Ellipsis && |Truncate(s, n)| == n + 3
    ensures |Truncate(s, n)| <= n + 3
  {
  }

  /** Cutting a card text again changes nothing. */
  lemma TruncateIdempotent(s: string, n: nat)
    ensures Truncate(Truncate(s, n), n) == Truncate(s, n)
  {
    if |s| > n {
      var t := Truncate(s, n);
      assert t[..n] == s[..n];
    }
  }

  /**
    A card shows its text unchanged exactly when the text fits, or when it is
    three characters too long and already ends in the ellipsis.
  */
  lemma TruncateUnchanged(s: string, n: nat)
    ensures Truncate(s, n) == s <==> |s| <= n || (|s| == n + 3 && s[n..] == Ellipsis)
  {
    if |s| > n {
      TruncateShape(s, n);
      if Truncate(s, n) == s {
        assert s[n..] == Truncate(s, n)[n..];
      }
      if |s| == n + 3 && s[n..] == Ellipsis {
        assert s == s[..n] + s[n..];
      }
    }
  }

  /** The three lines of a card. */
  datatype Card = Card(study: string, manager: string, network: string)

  /** The card of one record, as the board shows it. */
  function CardOf(p: Project): (c: Card)
    ensures |c.study| <= StudyWidth + 3 && |c.manager| <= ManagerWidth + 3 && |c.network| <= NetworkWidth + 3
    ensures |p.study| <= StudyWidth ==> c.study == p.study
    ensures |p.manager| <= ManagerWidth ==> c.manager == p.manager
    ensures |p.network| <= NetworkWidth ==> c.network == p.network
  {
    TruncateShape(p.study, StudyWidth);
    TruncateShape(p.manager, ManagerWidth);
    TruncateShape(p.network, NetworkWidth);
    Card(Truncate(p.study, StudyWidth), Truncate(p.manager, ManagerWidth), Truncate(p.network, NetworkWidth))
  }
}
