/**
  `format_issue_yaml` (scripts/export_issues.py): the text of one exported
  file, and a line-based reader for that layout which recovers every field.
 */
module IssueYaml {
  import opened Wrappers
  import opened Text
  import opened Decimal
  import opened YamlScalar
  import opened Issues

  // ---------------------------------------------------------------------------
  // Writing
  // ---------------------------------------------------------------------------

  /** `issue.get("number", "")` as an f-string prints it: nothing when absent. */
  function NumberText(number: Option<int>): string {
    match number
    case None => ""
    case Some(n) => IntToString(n)
  }

  /** `(issue.get("body") or "").replace("\r\n", "\n").rstrip()`. */
  function NormalizeBody(body: Option<string>): string {
    PyRStrip(ReplaceCrLf(body.GetOr("")))
  }

  /** A `key: value` line. */
  function FieldLine(key: string, value: string): string {
    key + ": " + value
  }

  /** The lines up to and including `labels:`. */
  function HeaderLines(issue: Issue): seq<string> {
    [ FieldLine("number", NumberText(issue.number)),
      FieldLine("title", YamlEscape(issue.title.GetOr("Untitled"))),
      FieldLine("state", YamlEscape(issue.state.GetOr("unknown"))),
      FieldLine("author", YamlEscape(Author(issue))),
      "labels:" ]
  }

  /** One `  - name` line per label. */
  function LabelItemLines(names: seq<string>): seq<string>
    decreases |names|
  {
    if names == [] then [] else ["  - " + YamlEscape(names[0])] + LabelItemLines(names[1..])
  }

  /** The label block: the items, or a lone `  -` when there are none. */
  function LabelLines(names: seq<string>): seq<string> {
    if names == [] then ["  -"] else LabelItemLines(names)
  }

  /** The lines from `created:` to `body: |`. */
  function TrailerLines(issue: Issue, exportedAt: string): seq<string> {
    [ FieldLine("created", YamlEscape(issue.createdAt.GetOr("unknown"))),
      FieldLine("updated", YamlEscape(issue.updatedAt.GetOr("unknown"))),
      FieldLine("exported", YamlEscape(exportedAt)),
      FieldLine("url", YamlEscape(issue.htmlUrl.GetOr(""))),
      "body: |" ]
  }

  /** Every line prefixed with two spaces. */
  function Indent(lines: seq<string>): (r: seq<string>)
    ensures |r| == |lines|
    decreases |lines|
  {
    if lines == [] then [] else ["  " + lines[0]] + Indent(lines[1..])
  }

  /** The body block: each line of the body indented, or one indented empty line. */
  function BodyLines(body: string): seq<string> {
    if body != [] then Indent(Split(body, '\n')) else ["  "]
  }

  function IssueLines(issue: Issue, exportedAt: string): seq<string> {
    HeaderLines(issue) + LabelLines(LabelNames(issue.labels))
    + TrailerLines(issue, exportedAt) + BodyLines(NormalizeBody(issue.body))
  }

  /** `format_issue_yaml(issue, exported_at)`: the lines joined, with a final line feed. */
  function FormatIssueYaml(issue: Issue, exportedAt: string): string {
    Join(IssueLines(issue, exportedAt), "\n") + "\n"
  }

  // ---------------------------------------------------------------------------
  // Reading
  // ---------------------------------------------------------------------------

  /** The fields an exported file records. */
  datatype Record = Record(
    number: Option<int>,
    title: string,
    state: string,
    author: string,
    labels: seq<string>,
    created: string,
    updated: string,
    exported: string,
    url: string,
    body: string)

  /** What the file written for `issue` says, field by field, defaults filled in. */
  function Expected(issue: Issue, exportedAt: string): Record {
    Record(
      issue.number,
      issue.title.GetOr("Untitled"),
      issue.state.GetOr("unknown"),
      Author(issue),
      LabelNames(issue.labels),
      issue.createdAt.GetOr("unknown"),
      issue.updatedAt.GetOr("unknown"),
      exportedAt,
      issue.htmlUrl.GetOr(""),
      NormalizeBody(issue.body))
  }

  /** The text after `key: `, if the line starts that way. */
  function FieldValue(key: string, line: string): Option<string> {
    if StartsWith(line, key + ": ") then Some(line[|key| + 2..]) else None
  }

  function ScalarField(key: string, line: string): Option<string> {
    var raw :- FieldValue(key, line);
    ReadScalar(raw)
  }

  /** An empty number field is an absent number; otherwise it must be `str(n)`. */
  function ParseNumber(raw: string): Option<Option<int>> {
    if raw == [] then Some(None)
    else
      match LeadingInt(raw)
      case Some(n) => if IntToString(n) == raw then Some(Some(n)) else None
      case None => None
  }

  /** Label items from the front of `lines`, and the lines after them. */
  function ParseLabelItems(lines: seq<string>): (r: (seq<string>, seq<string>))
    decreases |lines|
  {
    if lines != [] && StartsWith(lines[0], "  - ") then
      match ReadScalar(lines[0][4..])
      case None => ([], lines)
      case Some(name) =>
        var more := ParseLabelItems(lines[1..]);
        ([name] + more.0, more.1)
    else ([], lines)
  }

  /** The label block: a lone `  -`, or at least one item. */
  function ParseLabelBlock(lines: seq<string>): Option<(seq<string>, seq<string>)> {
    if lines != [] && lines[0] == "  -" then Some(([], lines[1..]))
    else
      var items := ParseLabelItems(lines);
      if items.0 == [] then None else Some(items)
  }

  /** Every line with its two-space indent removed. */
  function Unindent(lines: seq<string>): Option<seq<string>>
    decreases |lines|
  {
    if lines == [] then Some([])
    else if !StartsWith(lines[0], "  ") then None
    else
      var rest :- Unindent(lines[1..]);
      Some([lines[0][2..]] + rest)
  }

  function ParseBody(lines: seq<string>): Option<string> {
    if lines == [] then None
    else
      var raw :- Unindent(lines);
      Some(Join(raw, "\n"))
  }

  function ParseLines(lines: seq<string>): Option<Record> {
    if |lines| < 5 || lines[4] != "labels:" then None
    else
      var numberRaw :- FieldValue("number", lines[0]);
      var number :- ParseNumber(numberRaw);
      var title :- ScalarField("title", lines[1]);
      var state :- ScalarField("state", lines[2]);
      var author :- ScalarField("author", lines[3]);
      var block :- ParseLabelBlock(lines[5..]);
      var trailer :- ParseTrailer(block.1);
      Some(Record(number, title, state, author, block.0,
                  trailer.0, trailer.1, trailer.2, trailer.3, trailer.4))
  }

  /** The lines from `created:` to the end: four fields, `body: |`, and the body block. */
  function ParseTrailer(lines: seq<string>): Option<(string, string, string, string, string)> {
    if |lines| < 6 || lines[4] != "body: |" then None
    else
      var created :- ScalarField("created", lines[0]);
      var updated :- ScalarField("updated", lines[1]);
      var exported :- ScalarField("exported", lines[2]);
      var url :- ScalarField("url", lines[3]);
      var body :- ParseBody(lines[5..]);
      Some((created, updated, exported, url, body))
  }

  /** Reads an exported file back: its lines, each terminated by a line feed. */
  function ParseIssueYaml(text: string): Option<Record> {
    if text == [] || text[|text| - 1] != '\n' then None
    else ParseLines(Split(text[..|text| - 1], '\n'))
  }

  // ---------------------------------------------------------------------------
  // Properties
  // ---------------------------------------------------------------------------

  /** No text value the file writes as a scalar holds a line feed. */
  predicate SingleLineFields(issue: Issue, exportedAt: string) {
    && '\n' !in issue.title.GetOr("Untitled")
    && '\n' !in issue.state.GetOr("unknown")
    && '\n' !in Author(issue)
    && (forall i :: 0 <= i < |issue.labels| ==> '\n' !in issue.labels[i].name)
    && '\n' !in issue.createdAt.GetOr("unknown")
    && '\n' !in issue.updatedAt.GetOr("unknown")
    && '\n' !in exportedAt
    && '\n' !in issue.htmlUrl.GetOr("")
  }

  /**
    The file `format_issue_yaml` writes reads back as exactly the issue's
    fields, defaults filled in, labels in order, and the body normalised.
   */
  lemma FormatIssueYamlRoundTrip(issue: Issue, exportedAt: string)
    requires SingleLineFields(issue, exportedAt)
    ensures ParseIssueYaml(FormatIssueYaml(issue, exportedAt)) == Some(Expected(issue, exportedAt))
  {
    var lines := IssueLines(issue, exportedAt);
    var text := FormatIssueYaml(issue, exportedAt);
    IssueLinesSingle(issue, exportedAt);
    SplitJoin(lines, '\n');
    assert text[..|text| - 1] == Join(lines, "\n");
    ParseLinesIssueLines(issue, exportedAt);
  }

  lemma IssueLinesSingle(issue: Issue, exportedAt: string)
    requires SingleLineFields(issue, exportedAt)
    ensures |IssueLines(issue, exportedAt)| >= 1
    ensures forall i :: 0 <= i < |IssueLines(issue, exportedAt)| ==> '\n' !in IssueLines(issue, exportedAt)[i]
  {
    var h := HeaderLines(issue);
    var names := LabelNames(issue.labels);
    var l := LabelLines(names);
    var t := TrailerLines(issue, exportedAt);
    var b := BodyLines(NormalizeBody(issue.body));
    HeaderSingle(issue);
    LabelLinesSingle(names);
    TrailerSingle(issue, exportedAt);
    BodySingle(NormalizeBody(issue.body));
    SingleAppend(h, l);
    SingleAppend(h + l, t);
    SingleAppend(h + l + t, b);
  }

  predicate SingleLines(lines: seq<string>) {
    forall i :: 0 <= i < |lines| ==> '\n' !in lines[i]
  }

  lemma SingleAppend(a: seq<string>, b: seq<string>)
    requires SingleLines(a) && SingleLines(b)
    ensures SingleLines(a + b)
  {
    forall i | 0 <= i < |a + b| ensures '\n' !in (a + b)[i] {
      if i >= |a| {
        assert (a + b)[i] == b[i - |a|];
      }
    }
  }

  lemma NumberTextSingle(number: Option<int>)
    ensures '\n' !in NumberText(number)
  {
  }

  /** A field line whose key and value are single lines is one line. */
  lemma FieldLineSingle(key: string, value: string)
    requires '\n' !in key && '\n' !in value
    ensures '\n' !in FieldLine(key, value)
  {
    assert ": "[0] != '\n' && ": "[1] != '\n';
  }

  /** A single-line text stays on one line once escaped and put on a field line. */
  lemma EscapedFieldSingle(key: string, value: string)
    requires '\n' !in key && '\n' !in value
    ensures '\n' !in FieldLine(key, YamlEscape(value))
  {
    YamlEscapeNewline(value);
    FieldLineSingle(key, YamlEscape(value));
  }

  /** Five lines, each on its own line. */
  lemma FiveSingle(a: string, b: string, c: string, d: string, e: string)
    requires '\n' !in a && '\n' !in b && '\n' !in c && '\n' !in d && '\n' !in e
    ensures SingleLines([a, b, c, d, e])
  {
  }

  lemma HeaderSingle(issue: Issue)
    requires '\n' !in issue.title.GetOr("Untitled")
    requires '\n' !in issue.state.GetOr("unknown")
    requires '\n' !in Author(issue)
    ensures SingleLines(HeaderLines(issue))
  {
    NumberTextSingle(issue.number);
    FieldLineSingle("number", NumberText(issue.number));
    EscapedFieldSingle("title", issue.title.GetOr("Untitled"));
    EscapedFieldSingle("state", issue.state.GetOr("unknown"));
    EscapedFieldSingle("author", Author(issue));
    FiveSingle(
      FieldLine("number", NumberText(issue.number)),
      FieldLine("title", YamlEscape(issue.title.GetOr("Untitled"))),
      FieldLine("state", YamlEscape(issue.state.GetOr("unknown"))),
      FieldLine("author", YamlEscape(Author(issue))),
      "labels:");
  }

  lemma TrailerSingle(issue: Issue, exportedAt: string)
    requires '\n' !in issue.createdAt.GetOr("unknown")
    requires '\n' !in issue.updatedAt.GetOr("unknown")
    requires '\n' !in exportedAt
    requires '\n' !in issue.htmlUrl.GetOr("")
    ensures SingleLines(TrailerLines(issue, exportedAt))
  {
    EscapedFieldSingle("created", issue.createdAt.GetOr("unknown"));
    EscapedFieldSingle("updated", issue.updatedAt.GetOr("unknown"));
    EscapedFieldSingle("exported", exportedAt);
    EscapedFieldSingle("url", issue.htmlUrl.GetOr(""));
    FiveSingle(
      FieldLine("created", YamlEscape(issue.createdAt.GetOr("unknown"))),
      FieldLine("updated", YamlEscape(issue.updatedAt.GetOr("unknown"))),
      FieldLine("exported", YamlEscape(exportedAt)),
      FieldLine("url", YamlEscape(issue.htmlUrl.GetOr(""))),
      "body: |");
  }

  lemma {:induction false} LabelItemsSingle(names: seq<string>)
    requires forall i :: 0 <= i < |names| ==> '\n' !in names[i]
    ensures SingleLines(LabelItemLines(names))
    decreases |names|
  {
    if names != [] {
      YamlEscapeNewline(names[0]);
      LabelItemsSingle(names[1..]);
      SingleAppend(["  - " + YamlEscape(names[0])], LabelItemLines(names[1..]));
    }
  }

  lemma LabelLinesSingle(names: seq<string>)
    requires forall i :: 0 <= i < |names| ==> '\n' !in names[i]
    ensures SingleLines(LabelLines(names))
  {
    LabelItemsSingle(names);
  }

  lemma {:induction false} IndentSingle(lines: seq<string>)
    requires SingleLines(lines)
    ensures SingleLines(Indent(lines))
    decreases |lines|
  {
    if lines != [] {
      IndentSingle(lines[1..]);
      SingleAppend(["  " + lines[0]], Indent(lines[1..]));
    }
  }

  lemma BodySingle(body: string)
    ensures SingleLines(BodyLines(body))
    ensures |BodyLines(body)| >= 1
  {
    if body != [] {
      IndentSingle(Split(body, '\n'));
    }
  }

  /**
    The document ends in exactly one line feed: the character before the
    final one is the last character of the last body line, never a line feed.
   */
  lemma FormatIssueYamlEnds(issue: Issue, exportedAt: string)
    ensures var r := FormatIssueYaml(issue, exportedAt);
            |r| >= 2 && r[|r| - 1] == '\n' && r[|r| - 2] != '\n'
  {
    var a := HeaderLines(issue) + LabelLines(LabelNames(issue.labels)) + TrailerLines(issue, exportedAt);
    var b := BodyLines(NormalizeBody(issue.body));
    BodyLast(NormalizeBody(issue.body));
    LastOfAppend(a, b);
    JoinedEnds(a + b);
  }

  lemma LastOfAppend(a: seq<string>, b: seq<string>)
    requires |a| >= 1 && |b| >= 1
    ensures |a + b| >= 2 && (a + b)[|a + b| - 1] == b[|b| - 1]
  {
  }

  /** Lines ending with a non-empty one without a line feed, joined and terminated. */
  lemma JoinedEnds(lines: seq<string>)
    requires |lines| >= 2
    requires var last := lines[|lines| - 1]; |last| >= 1 && '\n' !in last
    ensures var r := Join(lines, "\n") + "\n";
            |r| >= 2 && r[|r| - 1] == '\n' && r[|r| - 2] != '\n'
  {
    var last := lines[|lines| - 1];
    JoinLast(lines, "\n");
    var r := Join(lines, "\n") + "\n";
    assert r == Join(lines[..|lines| - 1], "\n") + "\n" + last + "\n";
    assert r[|r| - 2] == last[|last| - 1];
  }

  /** The last body line is indented and holds no line feed. */
  lemma BodyLast(body: string)
    ensures var b := BodyLines(body);
            |b| >= 1 && |b[|b| - 1]| >= 2 && '\n' !in b[|b| - 1]
  {
    BodySingle(body);
    if body != [] {
      IndentLast(Split(body, '\n'));
    }
  }

  lemma {:induction false} IndentLast(lines: seq<string>)
    requires |lines| >= 1
    ensures Indent(lines)[|lines| - 1] == "  " + lines[|lines| - 1]
    decreases |lines|
  {
    if |lines| > 1 {
      IndentLast(lines[1..]);
    }
  }

  lemma ParseLinesIssueLines(issue: Issue, exportedAt: string)
    requires SingleLineFields(issue, exportedAt)
    ensures ParseLines(IssueLines(issue, exportedAt)) == Some(Expected(issue, exportedAt))
  {
    var names := LabelNames(issue.labels);
    var rest := TrailerLines(issue, exportedAt) + BodyLines(NormalizeBody(issue.body));
    var r := Expected(issue, exportedAt);
    ParseHeaderLines(issue);
    TrailerNotItem(issue, exportedAt);
    ParseLabelBlockLabelLines(names, rest);
    ParseTrailerLines(issue, exportedAt);
    IssueLinesSplit(issue, exportedAt);
    ParseLinesParts(HeaderLines(issue), LabelLines(names) + rest, rest, r);
  }

  lemma IssueLinesSplit(issue: Issue, exportedAt: string)
    ensures IssueLines(issue, exportedAt)
            == HeaderLines(issue) + (LabelLines(LabelNames(issue.labels))
               + (TrailerLines(issue, exportedAt) + BodyLines(NormalizeBody(issue.body))))
  {
  }

  /** The line after the label block is `created: ...`, which is not a label item. */
  lemma TrailerNotItem(issue: Issue, exportedAt: string)
    ensures var rest := TrailerLines(issue, exportedAt) + BodyLines(NormalizeBody(issue.body));
            rest != [] && !StartsWith(rest[0], "  - ")
  {
    var t := TrailerLines(issue, exportedAt);
    var rest := t + BodyLines(NormalizeBody(issue.body));
    assert rest[0] == t[0];
    assert t[0][0] == 'c';
  }

  /** The header lines read back as the number, title, state and author. */
  lemma ParseHeaderLines(issue: Issue)
    ensures var h := HeaderLines(issue);
            && |h| == 5 && h[4] == "labels:"
            && FieldValue("number", h[0]) == Some(NumberText(issue.number))
            && ParseNumber(NumberText(issue.number)) == Some(issue.number)
            && ScalarField("title", h[1]) == Some(issue.title.GetOr("Untitled"))
            && ScalarField("state", h[2]) == Some(issue.state.GetOr("unknown"))
            && ScalarField("author", h[3]) == Some(Author(issue))
  {
    ParseNumberText(issue.number);
    ScalarFieldRoundTrip("title", issue.title.GetOr("Untitled"));
    ScalarFieldRoundTrip("state", issue.state.GetOr("unknown"));
    ScalarFieldRoundTrip("author", Author(issue));
  }

  /** `ParseLines` on a header followed by the label block and the rest, each read on its own. */
  lemma ParseLinesParts(h: seq<string>, tail: seq<string>, rest: seq<string>, r: Record)
    requires |h| == 5 && h[4] == "labels:"
    requires FieldValue("number", h[0]).Some?
    requires ParseNumber(FieldValue("number", h[0]).value) == Some(r.number)
    requires ScalarField("title", h[1]) == Some(r.title)
    requires ScalarField("state", h[2]) == Some(r.state)
    requires ScalarField("author", h[3]) == Some(r.author)
    requires ParseLabelBlock(tail) == Some((r.labels, rest))
    requires ParseTrailer(rest) == Some((r.created, r.updated, r.exported, r.url, r.body))
    ensures ParseLines(h + tail) == Some(r)
  {
    var lines := h + tail;
    assert lines[5..] == tail;
    assert forall i :: 0 <= i < 5 ==> lines[i] == h[i];
  }

  lemma ParseTrailerLines(issue: Issue, exportedAt: string)
    ensures var nb := NormalizeBody(issue.body);
            ParseTrailer(TrailerLines(issue, exportedAt) + BodyLines(nb))
            == Some((issue.createdAt.GetOr("unknown"), issue.updatedAt.GetOr("unknown"),
                     exportedAt, issue.htmlUrl.GetOr(""), nb))
  {
    var nb := NormalizeBody(issue.body);
    var t := TrailerLines(issue, exportedAt);
    var lines := t + BodyLines(nb);
    BodySingle(nb);
    assert lines[..5] == t;
    assert lines[5..] == BodyLines(nb);
    ScalarFieldRoundTrip("created", issue.createdAt.GetOr("unknown"));
    ScalarFieldRoundTrip("updated", issue.updatedAt.GetOr("unknown"));
    ScalarFieldRoundTrip("exported", exportedAt);
    ScalarFieldRoundTrip("url", issue.htmlUrl.GetOr(""));
    ParseBodyLines(nb);
  }

  /** The number line reads back as the number, or as absent when it was absent. */
  lemma ParseNumberText(number: Option<int>)
    ensures FieldValue("number", FieldLine("number", NumberText(number))) == Some(NumberText(number))
    ensures ParseNumber(NumberText(number)) == Some(number)
  {
    var line := FieldLine("number", NumberText(number));
    assert line[..8] == "number: ";
    if number.Some? {
      LeadingIntIntToString(number.value);
    }
  }

  /** A `key: value` line written with `yaml_escape` reads back as the value. */
  lemma ScalarFieldRoundTrip(key: string, value: string)
    ensures ScalarField(key, FieldLine(key, YamlEscape(value))) == Some(value)
  {
    var line := FieldLine(key, YamlEscape(value));
    assert line[..|key| + 2] == key + ": ";
    assert line[|key| + 2..] == YamlEscape(value);
    ReadScalarYamlEscape(value);
  }

  lemma {:induction false} ParseLabelItemsLines(names: seq<string>, rest: seq<string>)
    requires rest == [] || !StartsWith(rest[0], "  - ")
    ensures ParseLabelItems(LabelItemLines(names) + rest) == (names, rest)
    decreases |names|
  {
    if names == [] {
      assert LabelItemLines(names) + rest == rest;
    } else {
      ParseLabelItemsLines(names[1..], rest);
      LabelItemsStep(names, rest);
      assert [names[0]] + names[1..] == names;
    }
  }

  /** The first label line reads back as the first label, and parsing goes on with the others. */
  lemma LabelItemsStep(names: seq<string>, rest: seq<string>)
    requires names != []
    ensures var tail := ParseLabelItems(LabelItemLines(names[1..]) + rest);
            ParseLabelItems(LabelItemLines(names) + rest) == ([names[0]] + tail.0, tail.1)
  {
    var line := "  - " + YamlEscape(names[0]);
    var more := LabelItemLines(names[1..]);
    LabelItemRoundTrip(names[0]);
    assert LabelItemLines(names) == [line] + more;
    assert [line] + more + rest == [line] + (more + rest);
    ParseLabelItemsCons(line, names[0], more + rest);
  }

  lemma ParseLabelItemsCons(line: string, name: string, tail: seq<string>)
    requires StartsWith(line, "  - ") && ReadScalar(line[4..]) == Some(name)
    ensures ParseLabelItems([line] + tail)
            == ([name] + ParseLabelItems(tail).0, ParseLabelItems(tail).1)
  {
    assert ([line] + tail)[1..] == tail;
  }

  /** One label line starts with `  - ` and reads back as the label. */
  lemma LabelItemRoundTrip(name: string)
    ensures var line := "  - " + YamlEscape(name);
            StartsWith(line, "  - ") && ReadScalar(line[4..]) == Some(name)
  {
    var line := "  - " + YamlEscape(name);
    assert line[..4] == "  - ";
    assert line[4..] == YamlEscape(name);
    ReadScalarYamlEscape(name);
  }

  lemma ParseLabelBlockLabelLines(names: seq<string>, rest: seq<string>)
    requires rest == [] || !StartsWith(rest[0], "  - ")
    ensures ParseLabelBlock(LabelLines(names) + rest) == Some((names, rest))
  {
    var lines := LabelLines(names) + rest;
    if names == [] {
      assert lines[1..] == rest;
    } else {
      var first := "  - " + YamlEscape(names[0]);
      assert lines[0] == first;
      assert first[3] == ' ';
      ParseLabelItemsLines(names, rest);
    }
  }

  lemma {:induction false} UnindentIndent(lines: seq<string>)
    ensures Unindent(Indent(lines)) == Some(lines)
    decreases |lines|
  {
    if lines != [] {
      var first := "  " + lines[0];
      assert Indent(lines)[0] == first;
      assert first[..2] == "  ";
      assert first[2..] == lines[0];
      assert Indent(lines)[1..] == Indent(lines[1..]);
      UnindentIndent(lines[1..]);
      assert [lines[0]] + lines[1..] == lines;
    }
  }

  lemma UnindentBlank()
    ensures Unindent(["  "]) == Some([[]])
  {
    var line := "  ";
    assert |line| == 2 && line[..2] == "  ";
    assert StartsWith(line, "  ");
    var lines: seq<string> := [line];
    assert lines[0] == line && lines[1..] == [];
    assert Unindent(lines[1..]) == Some([]);
    assert Unindent(lines) == Some([line[2..]] + []);
    assert line[2..] == [];
    assert [line[2..]] + [] == [[]];
  }

  /** The body block reads back as the body it was written from. */
  lemma ParseBodyLines(body: string)
    ensures ParseBody(BodyLines(body)) == Some(body)
  {
    if body != [] {
      UnindentIndent(Split(body, '\n'));
      JoinSplit(body, '\n');
    } else {
      UnindentBlank();
    }
  }

  /**
    Writing one indented empty line for an empty body is what the per-line
    branch would have written anyway: an empty text splits into one empty line.
   */
  lemma BodyLinesUniform(body: string)
    ensures BodyLines(body) == Indent(Split(body, '\n'))
  {
    if body == [] {
      assert Indent([[]]) == ["  " + []] + Indent([]);
      assert "  " + [] == "  ";
    }
  }

  /** The stored body keeps every character but carriage returns of CR LF pairs and trailing whitespace. */
  lemma NormalizeBodyShape(body: Option<string>)
    ensures var nb := NormalizeBody(body);
            nb == [] || !IsPySpace(nb[|nb| - 1])
    ensures body.Some? && '\r' !in body.value && PyRStrip(body.value) == body.value ==>
              NormalizeBody(body) == body.value
  {
    if body.Some? && '\r' !in body.value {
      ReplaceCrLfNoCr(body.value);
    }
  }
}
