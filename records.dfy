/**
  The record parser of `load_data`: the lines of the pipe-delimited export
  become research-project records. Reading the file is outside the model; the
  parser starts from the sequence of lines that `readlines()` returns.
*/
module Records {
  import opened Wrappers
  import opened Seqs
  import opened Text

  /** One research project, the dict built for each retained line. */
  datatype Project = Project(
    id: nat,
    priorityLine: string,
    manager: string,
    study: string,
    network: string,
    status: string,
    dataSupport: string,
    principalInvestigator: string,
    coInvestigators: string,
    nationalNetwork: string)

  /** The field separator. */
  const Delimiter: char := '|'

  /** Header lines skipped before the first data line. */
  const HeaderLines: nat := 2

  /** Fewest pieces a line must split into. */
  const MinPieces: nat := 9

  /** Marker of a table-rule line, which is not a record. */
  const RuleMarker: string := "---"

  /** `lines[2:]`: the data lines; a file shorter than the header has none. */
  function Body(lines: seq<string>): seq<string>
  {
    if |lines| >= HeaderLines then lines[HeaderLines..] else []
  }

  /** `[part.strip() for part in line.split('|')]`. */
  function Pieces(line: string): seq<string>
  {
    Map(Split(line, Delimiter), Strip)
  }

  /** `parts[k].strip() if len(parts) > k else ""`. */
  function Field(parts: seq<string>, k: nat): string {
    if |parts| > k then Strip(parts[k]) else ""
  }

  /** The retention rule for a parsed line's priority line and study. */
  predicate Retained(priorityLine: string, study: string) {
    priorityLine != "" && study != "" && !StartsWith(priorityLine, RuleMarker)
  }

  /** What every record the parser yields satisfies. */
  predicate WellFormed(p: Project) {
    Retained(p.priorityLine, p.study)
  }

  /**
    Whether a data line yields a record: it is non-blank, holds a separator,
    splits into at least nine pieces, and its priority line and study pass the
    retention rule.
  */
  predicate Accepts(line: string) {
    && Strip(line) != ""
    && Delimiter in line
    && |Pieces(line)| >= MinPieces
    && Retained(Field(Pieces(line), 1), Field(Pieces(line), 4))
  }

  /** The record built from the trimmed pieces of a line with at least nine pieces. */
  function Build(parts: seq<string>, id: nat): Project
    requires |parts| >= MinPieces
  {
    Project(id, Field(parts, 1), Field(parts, 2), Field(parts, 4), Field(parts, 3), Field(parts, 5),
            Field(parts, 6), Field(parts, 7), Field(parts, 8), Field(parts, 9))
  }

  /** The record one data line yields when it is given id `id`, if any. */
  function ParseLine(line: string, id: nat): (r: Option<Project>)
    ensures r.Some? <==> Accepts(line)
    ensures r.Some? ==> r.value.id == id && WellFormed(r.value)
  {
    if Accepts(line) then Some(Build(Pieces(line), id)) else None
  }

  /**
    Which lines yield a record, stated on the raw pieces of the line: one with
    at least eight separators whose trimmed pieces 1 and 4 pass the retention
    rule. Any other line yields nothing.
  */
  lemma ParseLineAccepts(line: string, id: nat)
    ensures |Split(line, Delimiter)| == CountChar(line, Delimiter) + 1
    ensures var raw := Split(line, Delimiter);
      ParseLine(line, id).Some? <==>
        |raw| >= MinPieces && Retained(Strip(raw[1]), Strip(raw[4]))
  {
    var raw := Split(line, Delimiter);
    SplitLength(line, Delimiter);
    PipeLineNotBlank(line);
    if |raw| >= MinPieces {
      assert Delimiter in multiset(line);
      StripIdempotent(raw[1]);
      StripIdempotent(raw[4]);
      assert Field(Pieces(line), 1) == Strip(raw[1]);
      assert Field(Pieces(line), 4) == Strip(raw[4]);
    }
  }

  /**
    What a record holds: its fields are the trimmed pieces 1 to 8 of its line,
    and its national network is the trimmed piece 9, or empty when the line
    has exactly nine pieces.
  */
  lemma ParseLineFields(line: string, id: nat)
    requires ParseLine(line, id).Some?
    ensures var raw := Split(line, Delimiter); var p := ParseLine(line, id).value;
      && |raw| >= MinPieces
      && p.id == id
      && p.priorityLine == Strip(raw[1])
      && p.manager == Strip(raw[2])
      && p.network == Strip(raw[3])
      && p.study == Strip(raw[4])
      && p.status == Strip(raw[5])
      && p.dataSupport == Strip(raw[6])
      && p.principalInvestigator == Strip(raw[7])
      && p.coInvestigators == Strip(raw[8])
      && p.nationalNetwork == (if |raw| > 9 then Strip(raw[9]) else "")
  {
    var raw := Split(line, Delimiter);
    var parts := Pieces(line);
    assert ParseLine(line, id).value == Build(parts, id);
    FieldOfPiece(line, 1);
    FieldOfPiece(line, 2);
    FieldOfPiece(line, 3);
    FieldOfPiece(line, 4);
    FieldOfPiece(line, 5);
    FieldOfPiece(line, 6);
    FieldOfPiece(line, 7);
    FieldOfPiece(line, 8);
    if |raw| > 9 {
      FieldOfPiece(line, 9);
    }
  }

  lemma FieldOfPiece(line: string, k: nat)
    requires k < |Split(line, Delimiter)|
    ensures Field(Pieces(line), k) == Strip(Split(line, Delimiter)[k])
  {
    StripIdempotent(Split(line, Delimiter)[k]);
  }

  /** Trimming a trimmed piece again changes nothing. */
  lemma PiecesStripped(line: string)
    ensures forall k :: 0 <= k < |Pieces(line)| ==> Strip(Pieces(line)[k]) == Pieces(line)[k]
  {
    forall k | 0 <= k < |Pieces(line)| ensures Strip(Pieces(line)[k]) == Pieces(line)[k] {
      StripIdempotent(Split(line, Delimiter)[k]);
    }
  }

  /**
    A line that holds a separator is never blank, so the blank-line test of
    the parser is implied by its separator test.
  */
  lemma PipeLineNotBlank(line: string)
    ensures Delimiter in line ==> Strip(line) != ""
  {
    StripEmptyIff(line);
    if Delimiter in line {
      var i :| 0 <= i < |line| && line[i] == Delimiter;
      assert !IsSpace(line[i]);
    }
  }

  /** A per-line parser: a line and the id it would get, to the record it yields, if any. */
  type LineParser = (string, nat) -> Option<Project>

  /**
    The numbering loop of `load_data`, for any per-line parser: each line, in
    order, is parsed with id one more than the number of records so far
    (`len(data) + 1`), and what it yields is appended.
  */
  function NumberLines(body: seq<string>, parse: LineParser): (data: seq<Project>)
    decreases |body|
  {
    if body == [] then []
    else
      var data := NumberLines(body[..|body| - 1], parse);
      match parse(body[|body| - 1], |data| + 1)
      case Some(p) => data + [p]
      case None => data
  }

  /** The records of a sequence of data lines. */
  function Parsed(body: seq<string>): seq<Project> {
    NumberLines(body, ParseLine)
  }

  /** The records of a whole file, header included. */
  function ParseFile(lines: seq<string>): seq<Project> {
    Parsed(Body(lines))
  }

  /** A parser that stamps the id it is given numbers its records 1, 2, ..., n. */
  lemma {:induction false} NumberLinesIds(body: seq<string>, parse: LineParser)
    requires forall l, n :: parse(l, n).Some? ==> parse(l, n).value.id == n
    ensures forall k :: 0 <= k < |NumberLines(body, parse)| ==> NumberLines(body, parse)[k].id == k + 1
    decreases |body|
  {
    if body != [] {
      NumberLinesIds(body[..|body| - 1], parse);
    }
  }

  /** A parser that yields only well-formed records yields a well-formed sequence. */
  lemma {:induction false} NumberLinesWellFormed(body: seq<string>, parse: LineParser)
    requires forall l, n :: parse(l, n).Some? ==> WellFormed(parse(l, n).value)
    ensures forall k :: 0 <= k < |NumberLines(body, parse)| ==> WellFormed(NumberLines(body, parse)[k])
    decreases |body|
  {
    if body != [] {
      NumberLinesWellFormed(body[..|body| - 1], parse);
    }
  }

  /**
    When whether a line yields a record does not depend on the id, the records
    are, one for one and in order, what the accepted lines yield.
  */
  lemma {:induction false} NumberLinesAccepted(body: seq<string>, parse: LineParser, accept: string -> bool)
    requires forall l, n :: parse(l, n).Some? == accept(l)
    ensures |NumberLines(body, parse)| == |Filter(body, accept)|
    ensures forall k :: 0 <= k < |NumberLines(body, parse)| ==>
      parse(Filter(body, accept)[k], k + 1) == Some(NumberLines(body, parse)[k])
    decreases |body|
  {
    if body != [] {
      var init := body[..|body| - 1];
      var last := body[|body| - 1];
      NumberLinesAccepted(init, parse, accept);
      assert init + [last] == body;
      FilterSnoc(init, last, accept);
      var data := NumberLines(init, parse);
      var kept := Filter(init, accept);
      if accept(last) {
        var record := parse(last, |data| + 1).value;
        assert Filter(body, accept) == kept + [last];
        assert NumberLines(body, parse) == data + [record];
        forall k | 0 <= k < |data| + 1
          ensures parse(Filter(body, accept)[k], k + 1) == Some(NumberLines(body, parse)[k])
        {
          if k < |data| {
            assert (kept + [last])[k] == kept[k];
            assert (data + [record])[k] == data[k];
          }
        }
      } else {
        assert Filter(body, accept) == kept;
        assert NumberLines(body, parse) == data;
      }
    }
  }

  /** Ids are 1, 2, ..., n in order: dense, 1-based, and consumed only by retained lines. */
  lemma ParsedIds(body: seq<string>)
    ensures forall k :: 0 <= k < |Parsed(body)| ==> Parsed(body)[k].id == k + 1
  {
    NumberLinesIds(body, ParseLine);
  }

  /** Every record has a priority line and a study, and no priority line is a table rule. */
  lemma ParsedWellFormed(body: seq<string>)
    ensures forall k :: 0 <= k < |Parsed(body)| ==> WellFormed(Parsed(body)[k])
  {
    NumberLinesWellFormed(body, ParseLine);
  }

  /**
    The records correspond one to one, in file order, to the accepted lines:
    the k-th record is what the k-th accepted line yields with id k + 1, and
    a rejected line contributes nothing and consumes no id.
  */
  lemma ParsedAccepted(body: seq<string>)
    ensures |Parsed(body)| == |Filter(body, Accepts)|
    ensures forall k :: 0 <= k < |Parsed(body)| ==>
      ParseLine(Filter(body, Accepts)[k], k + 1) == Some(Parsed(body)[k])
  {
    NumberLinesAccepted(body, ParseLine, Accepts);
  }

  /**
    `load_data` without the file read: skips the two header lines and, for
    each remaining line that is non-blank and holds a separator, splits it,
    trims the pieces and, when there are enough of them and the retention rule
    holds, appends a record numbered `len(data) + 1`.
  */
  method LoadData(lines: seq<string>) returns (data: seq<Project>)
    ensures data == ParseFile(lines)
    ensures forall k :: 0 <= k < |data| ==> data[k].id == k + 1 && WellFormed(data[k])
    ensures |data| == |Filter(Body(lines), Accepts)|
  {
    var body := if |lines| >= HeaderLines then lines[HeaderLines..] else [];
    data := [];
    var i := 0;
    while i < |body|
      invariant 0 <= i <= |body|
      invariant data == Parsed(body[..i])
    {
      var record := ParseRow(body[i], |data| + 1);
      ParsedStep(body, i, data, record);
      if record.Some? {
        data := data + [record.value];
      }
      i := i + 1;
    }
    assert body[..|body|] == body;
    ParsedIds(body);
    ParsedWellFormed(body);
    ParsedAccepted(body);
  }

  /**
    The body of the loop of `load_data` for one line: a non-blank line with a
    separator is split and trimmed and, when it has enough pieces and the
    retention rule holds, yields the record with id `id`.
  */
  method ParseRow(line: string, id: nat) returns (record: Option<Project>)
    ensures record == ParseLine(line, id)
  {
    record := None;
    if Strip(line) != "" && Delimiter in line {
      var parts := Pieces(line);
      if |parts| >= MinPieces {
        var priorityLine := Field(parts, 1);
        var manager := Field(parts, 2);
        var network := Field(parts, 3);
        var study := Field(parts, 4);
        var status := Field(parts, 5);
        var dataSupport := Field(parts, 6);
        var principalInvestigator := Field(parts, 7);
        var coInvestigators := Field(parts, 8);
        var nationalNetwork := Field(parts, 9);
        if priorityLine != "" && study != "" && !StartsWith(priorityLine, RuleMarker) {
          record := Some(Project(id, priorityLine, manager, study, network, status,
                                 dataSupport, principalInvestigator, coInvestigators, nationalNetwork));
        }
      }
    }
  }

  /**
    Parsing one more line of the body appends exactly what that line yields
    with the next id, and nothing when it yields nothing.
  */
  lemma ParsedStep(body: seq<string>, i: nat, data: seq<Project>, record: Option<Project>)
    requires i < |body| && data == Parsed(body[..i]) && record == ParseLine(body[i], |data| + 1)
    ensures Parsed(body[..i + 1]) == if record.Some? then data + [record.value] else data
  {
    assert body[..i + 1][..i] == body[..i];
  }

  /**
    Five data lines after the header, of which the third has only six pieces:
    four records come out, numbered 1 to 4 in file order.
  */
  lemma FiveLinesOneShort(h1: string, h2: string, l1: string, l2: string, l3: string, l4: string, l5: string)
    requires Accepts(l1) && Accepts(l2) && Accepts(l4) && Accepts(l5)
    requires CountChar(l3, Delimiter) == 5
    ensures var data := ParseFile([h1, h2, l1, l2, l3, l4, l5]);
      && |data| == 4
      && ParseLine(l1, 1) == Some(data[0])
      && ParseLine(l2, 2) == Some(data[1])
      && ParseLine(l4, 3) == Some(data[2])
      && ParseLine(l5, 4) == Some(data[3])
  {
    assert Body([h1, h2, l1, l2, l3, l4, l5]) == [l1, l2, l3, l4, l5];
    ShortLineRejected(l3);
    NumberLinesDropThird(l1, l2, l3, l4, l5, ParseLine, Accepts);
  }

  /** A line with fewer than eight separators yields no record. */
  lemma ShortLineRejected(line: string)
    requires CountChar(line, Delimiter) < MinPieces - 1
    ensures !Accepts(line)
  {
    SplitLength(line, Delimiter);
  }

  lemma NumberLinesDropThird(l1: string, l2: string, l3: string, l4: string, l5: string,
                             parse: LineParser, accept: string -> bool)
    requires forall l, n :: parse(l, n).Some? == accept(l)
    requires accept(l1) && accept(l2) && !accept(l3) && accept(l4) && accept(l5)
    ensures var data := NumberLines([l1, l2, l3, l4, l5], parse);
      && |data| == 4
      && parse(l1, 1) == Some(data[0])
      && parse(l2, 2) == Some(data[1])
      && parse(l4, 3) == Some(data[2])
      && parse(l5, 4) == Some(data[3])
  {
    assert [l1][..0] == [];
    assert NumberLines([], parse) == [];
    assert parse(l1, 1).Some?;
    var d1 := NumberLines([l1], parse);
    assert d1 == [parse(l1, 1).value];
    assert [l1, l2][..1] == [l1];
    var d2 := NumberLines([l1, l2], parse);
    assert d2 == d1 + [parse(l2, 2).value];
    assert [l1, l2, l3][..2] == [l1, l2];
    assert NumberLines([l1, l2, l3], parse) == d2;
    assert [l1, l2, l3, l4][..3] == [l1, l2, l3];
    var d4 := NumberLines([l1, l2, l3, l4], parse);
    assert d4 == d2 + [parse(l4, 3).value];
    assert [l1, l2, l3, l4, l5][..4] == [l1, l2, l3, l4];
    assert NumberLines([l1, l2, l3, l4, l5], parse) == d4 + [parse(l5, 4).value];
  }
}
