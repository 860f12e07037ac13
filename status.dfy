/**
  The colour of a kanban column (`get_status_color` inside
  `create_kanban_board`): an ordered chain of case-insensitive keyword tests
  on the status text, the first one that matches deciding the colour.
*/
module StatusColors {
  import opened Text

  const LightOrange: string := "#FFE4B5"  // in preparation
  const PaleGreen: string := "#98FB98"    // approved
  const LightGreen: string := "#90EE90"   // in execution
  const SkyBlue: string := "#87CEEB"      // completed
  const LightPink: string := "#FFB6C1"    // awaiting authorisation
  const Plum: string := "#DDA0DD"         // in validation, and manuscript
  const Khaki: string := "#F0E68C"        // waiting
  const Lavender: string := "#E6E6FA"     // any other status

  /** The colours the classifier can return. */
  const Palette: set<string> := {LightOrange, PaleGreen, LightGreen, SkyBlue, LightPink, Plum, Khaki, Lavender}

  /** `get_status_color(status)`, tested on `status.lower()` in the order of the source. */
  function StatusColor(status: string): (c: string)
    ensures c in Palette
  {
    var s := Lower(status);
    if Contains(s, "elaboración") || Contains(s, "elaboracion") then LightOrange
    else if Contains(s, "aprobado") || Contains(s, "comité") then PaleGreen
    else if Contains(s, "ejecución") || Contains(s, "ejecucion") then LightGreen
    else if Contains(s, "completo") || Contains(Lower(s), "rri") then SkyBlue
    else if Contains(s, "autorizacion") || Contains(s, "gerencia") then LightPink
    else if Contains(s, "validacion") then Plum
    else if Contains(s, "espera") || Contains(s, "respuesta") then Khaki
    else if Contains(s, "manuscrito") then Plum
    else Lavender
  }

  /** One rule of the chain: any of its keywords selects its colour. */
  datatype Rule = Rule(keywords: seq<string>, colour: string)

  /** The chain of `get_status_color` as data, in the order its tests are made. */
  const Rules: seq<Rule> := [
    Rule(["elaboración", "elaboracion"], LightOrange),
    Rule(["aprobado", "comité"], PaleGreen),
    Rule(["ejecución", "ejecucion"], LightGreen),
    Rule(["completo", "rri"], SkyBlue),
    Rule(["autorizacion", "gerencia"], LightPink),
    Rule(["validacion"], Plum),
    Rule(["espera", "respuesta"], Khaki),
    Rule(["manuscrito"], Plum)
  ]

  /** The colour of anything no rule matches. */
  const Default: string := Lavender

  /** Some keyword of the list occurs in `s`. */
  predicate AnyKeyword(s: string, keywords: seq<string>)
    decreases |keywords|
  {
    keywords != [] && (Contains(s, keywords[0]) || AnyKeyword(s, keywords[1..]))
  }

  predicate Matches(r: Rule, s: string) {
    AnyKeyword(s, r.keywords)
  }

  /** First-match-wins over a list of rules, with a default. */
  function Classify(rules: seq<Rule>, s: string): string {
    ClassifyFrom(rules, s, 0)
  }

  /** First-match-wins over the rules from index `k` on. */
  function ClassifyFrom(rules: seq<Rule>, s: string, k: nat): string
    decreases |rules| - k
  {
    if k >= |rules| then Default
    else if Matches(rules[k], s) then rules[k].colour
    else ClassifyFrom(rules, s, k + 1)
  }

  /** Lowering twice is lowering once (rule 4 lowers the lowered text again). */
  lemma LowerIdempotent(s: string)
    ensures Lower(Lower(s)) == Lower(s)
  {
  }

  /** The chain of the source is the rule table applied first-match-wins to the lowered status. */
  lemma StatusColorIsClassify(status: string)
    ensures StatusColor(status) == Classify(Rules, Lower(status))
  {
    var s := Lower(status);
    LowerIdempotent(status);
    RuleTests(s);
    assert ClassifyFrom(Rules, s, 8) == Lavender;
    assert ClassifyFrom(Rules, s, 7) == if Contains(s, "manuscrito") then Plum else Lavender;
    assert ClassifyFrom(Rules, s, 6) == if Contains(s, "espera") || Contains(s, "respuesta") then Khaki
      else ClassifyFrom(Rules, s, 7);
    assert ClassifyFrom(Rules, s, 5) == if Contains(s, "validacion") then Plum
      else ClassifyFrom(Rules, s, 6);
    assert ClassifyFrom(Rules, s, 4) == if Contains(s, "autorizacion") || Contains(s, "gerencia") then LightPink
      else ClassifyFrom(Rules, s, 5);
    assert ClassifyFrom(Rules, s, 3) == if Contains(s, "completo") || Contains(s, "rri") then SkyBlue
      else ClassifyFrom(Rules, s, 4);
    assert ClassifyFrom(Rules, s, 2) == if Contains(s, "ejecución") || Contains(s, "ejecucion") then LightGreen
      else ClassifyFrom(Rules, s, 3);
    assert ClassifyFrom(Rules, s, 1) == if Contains(s, "aprobado") || Contains(s, "comité") then PaleGreen
      else ClassifyFrom(Rules, s, 2);
    assert ClassifyFrom(Rules, s, 0) == if Contains(s, "elaboración") || Contains(s, "elaboracion") then LightOrange
      else ClassifyFrom(Rules, s, 1);
  }

  /** What each rule of the table tests. */
  lemma RuleTests(s: string)
    ensures |Rules| == 8
    ensures Matches(Rules[0], s) == (Contains(s, "elaboración") || Contains(s, "elaboracion"))
    ensures Matches(Rules[1], s) == (Contains(s, "aprobado") || Contains(s, "comité"))
    ensures Matches(Rules[2], s) == (Contains(s, "ejecución") || Contains(s, "ejecucion"))
    ensures Matches(Rules[3], s) == (Contains(s, "completo") || Contains(s, "rri"))
    ensures Matches(Rules[4], s) == (Contains(s, "autorizacion") || Contains(s, "gerencia"))
    ensures Matches(Rules[5], s) == Contains(s, "validacion")
    ensures Matches(Rules[6], s) == (Contains(s, "espera") || Contains(s, "respuesta"))
    ensures Matches(Rules[7], s) == Contains(s, "manuscrito")
  {
    TwoKeywords(s, "elaboración", "elaboracion");
    TwoKeywords(s, "aprobado", "comité");
    TwoKeywords(s, "ejecución", "ejecucion");
    TwoKeywords(s, "completo", "rri");
    TwoKeywords(s, "autorizacion", "gerencia");
    TwoKeywords(s, "espera", "respuesta");
  }

  lemma TwoKeywords(s: string, a: string, b: string)
    ensures AnyKeyword(s, [a, b]) == (Contains(s, a) || Contains(s, b))
  {
    assert [b][1..] == [];
    assert AnyKeyword(s, [b]) == Contains(s, b);
    assert [a, b][1..] == [b];
  }

  /**
    The rule at index `i` decides the colour when it matches and no earlier
    rule does.
  */
  lemma ClassifyFirstMatch(rules: seq<Rule>, s: string, i: nat)
    requires i < |rules| && Matches(rules[i], s)
    requires forall j :: 0 <= j < i ==> !Matches(rules[j], s)
    ensures Classify(rules, s) == rules[i].colour
  {
    ClassifyFromFirstMatch(rules, s, 0, i);
  }

  lemma {:induction false} ClassifyFromFirstMatch(rules: seq<Rule>, s: string, k: nat, i: nat)
    requires k <= i < |rules| && Matches(rules[i], s)
    requires forall j :: k <= j < i ==> !Matches(rules[j], s)
    ensures ClassifyFrom(rules, s, k) == rules[i].colour
    decreases i - k
  {
    if k < i {
      ClassifyFromFirstMatch(rules, s, k + 1, i);
    }
  }

  /**
    When no rule has the default colour, the default comes out exactly when
    no rule matches.
  */
  lemma ClassifyDefaultIff(rules: seq<Rule>, s: string)
    requires forall j :: 0 <= j < |rules| ==> rules[j].colour != Default
    ensures Classify(rules, s) == Default <==> forall j :: 0 <= j < |rules| ==> !Matches(rules[j], s)
  {
    ClassifyFromDefaultIff(rules, s, 0);
  }

  lemma {:induction false} ClassifyFromDefaultIff(rules: seq<Rule>, s: string, k: nat)
    requires forall j :: 0 <= j < |rules| ==> rules[j].colour != Default
    ensures ClassifyFrom(rules, s, k) == Default <==> forall j :: k <= j < |rules| ==> !Matches(rules[j], s)
    decreases |rules| - k
  {
    if k < |rules| {
      ClassifyFromDefaultIff(rules, s, k + 1);
    }
  }

  /**
    The first matching rule of the table wins: its colour is the colour of
    the status.
  */
  lemma StatusColorFirstMatch(status: string, i: nat)
    requires i < |Rules| && Matches(Rules[i], Lower(status))
    requires forall j :: 0 <= j < i ==> !Matches(Rules[j], Lower(status))
    ensures StatusColor(status) == Rules[i].colour
  {
    StatusColorIsClassify(status);
    ClassifyFirstMatch(Rules, Lower(status), i);
  }

  /**
    A status with no keyword at all is lavender, and only such a status is:
    no rule's colour is the default one.
  */
  lemma StatusColorDefault(status: string)
    ensures StatusColor(status) == Lavender <==>
      forall j :: 0 <= j < |Rules| ==> !Matches(Rules[j], Lower(status))
  {
    StatusColorIsClassify(status);
    ClassifyDefaultIff(Rules, Lower(status));
  }

  /**
    The approval test comes before the execution test: a status that mentions
    the committee is pale green even when it also mentions execution, unless
    it mentions preparation.
  */
  lemma CommitteeBeforeExecution(status: string)
    requires Contains(Lower(status), "comité")
    requires !Contains(Lower(status), "elaboración") && !Contains(Lower(status), "elaboracion")
    ensures StatusColor(status) == PaleGreen
  {
  }

  /** "Ejecución Comité" is coloured as approved. */
  lemma ApprovedExecutionExample()
    ensures StatusColor("Ejecución Comité") == PaleGreen
  {
    var s := Lower("Ejecución Comité");
    assert s == "ejecución comité";
    assert OccursAt(s, "comité", 10);
    MissingCharNotContains(s, "elaboración", 1);
    MissingCharNotContains(s, "elaboracion", 1);
    CommitteeBeforeExecution("Ejecución Comité");
  }
}
