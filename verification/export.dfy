/**
  `write_issues` and the pull-request filter of `main`
  (scripts/export_issues.py): which files an export writes, under which
  names, and the count it reports.

  The output directory is a map from file name to file content; writing a
  file is a map update, so a later file with the same name replaces an
  earlier one.
 */
module Export {
  import opened Wrappers
  import opened Text
  import opened Decimal
  import opened Slug
  import opened Issues
  import opened IssueYaml

  // ---------------------------------------------------------------------------
  // File names
  // ---------------------------------------------------------------------------

  /** `issue.get("title") or "issue"`: an absent or empty title becomes `issue`. */
  function TitleForSlug(title: Option<string>): string {
    match title
    case None => Fallback
    case Some(t) => if t == [] then Fallback else t
  }

  /**
    `slugify(issue.get("title") or "issue")`. The fallback title is ASCII,
    so normalising it changes nothing, and its slug is `issue` itself
    (`TitleSlugIsSlugify`); that case is written out rather than computed.
   */
  function TitleSlug(db: Decompositions, title: Option<string>): string {
    if title.None? || title.value == [] then Fallback
    else SlugifyText(db, title.value, DefaultMaxLength)
  }

  /** `f"{number:05d}-{slugify(title)}.yml"`. */
  function FileName(db: Decompositions, number: int, title: Option<string>): string {
    Format05d(number) + SlugPart(db, title)
  }

  /** What follows the number: a dash, the slug of the title and the extension. */
  function SlugPart(db: Decompositions, title: Option<string>): string {
    "-" + TitleSlug(db, title) + ".yml"
  }

  /** The slug in a file name is `slugify` of the title, the fallback title included. */
  lemma TitleSlugIsSlugify(db: Decompositions, title: Option<string>)
    ensures TitleSlug(db, title) == SlugifyText(db, TitleForSlug(title), DefaultMaxLength)
  {
    if title.None? || title.value == [] {
      FallbackIsSlug();
      FallbackLetters();
      NfkdUnchanged(db, Fallback);
      SlugifySlug(Fallback, DefaultMaxLength);
    }
  }

  /** The name of the file written for an issue that has a number. */
  function FileOf(db: Decompositions, issue: Issue): string
    requires issue.number.Some?
  {
    FileName(db, issue.number.value, issue.title)
  }

  /** A file name starts with the issue number, which reads back exactly. */
  lemma FileNameNumber(db: Decompositions, number: int, title: Option<string>)
    ensures LeadingInt(FileName(db, number, title)) == Some(number)
  {
    LeadingIntFormat05d(number, SlugPart(db, title));
  }

  /**
    After the number, written with at least five characters, come a dash
    and a non-empty slug of at most sixty characters.
   */
  lemma FileNameSlug(db: Decompositions, number: int, title: Option<string>)
    ensures var slug := SlugifyText(db, TitleForSlug(title), DefaultMaxLength);
            && |Format05d(number)| >= 5
            && SlugPart(db, title) == "-" + slug + ".yml"
            && IsSlug(slug) && 0 < |slug| <= DefaultMaxLength
  {
    LeadingIntFormat05d(number, []);
    TitleSlugIsSlugify(db, title);
  }

  /** Different numbers give different file names, whatever the titles. */
  lemma FileNameInjective(db: Decompositions, n1: int, t1: Option<string>, n2: int, t2: Option<string>)
    ensures FileName(db, n1, t1) == FileName(db, n2, t2) ==> n1 == n2
  {
    FileNameNumber(db, n1, t1);
    FileNameNumber(db, n2, t2);
  }

  /**
    An issue without a title, with an empty one, or with one whose
    normalised text has no ASCII letter or digit gets the slug `issue`, and so the file name it
    would have had without a title.
   */
  lemma FileNameUntitled(db: Decompositions, number: int, title: Option<string>)
    requires title.None? || !HasAlnum(Nfkd(db, title.value))
    ensures TitleSlug(db, title) == Fallback
    ensures FileName(db, number, title) == FileName(db, number, None)
  {
    if title.Some? && title.value != [] {
      SlugifyFallbackDefault(Nfkd(db, title.value));
    }
  }

  // ---------------------------------------------------------------------------
  // Writing
  // ---------------------------------------------------------------------------

  /** `f"{None:05d}"` raises `TypeError`: the issue at `index` has no number. */
  datatype WriteError = MissingNumber(index: nat)

  predicate AllNumbered(issues: seq<Issue>) {
    forall i :: 0 <= i < |issues| ==> issues[i].number.Some?
  }

  /** The file written for a numbered issue: its name and its content. */
  function Entry(db: Decompositions, issue: Issue, exportedAt: string): (string, string)
    requires issue.number.Some?
  {
    (FileOf(db, issue), FormatIssueYaml(issue, exportedAt))
  }

  /** The files written for a list of numbered issues, in order. */
  function Writes(db: Decompositions, issues: seq<Issue>, exportedAt: string): (r: seq<(string, string)>)
    requires AllNumbered(issues)
    ensures |r| == |issues|
    decreases |issues|
  {
    if issues == [] then []
    else Writes(db, issues[..|issues| - 1], exportedAt) + [Entry(db, issues[|issues| - 1], exportedAt)]
  }

  /** A directory after a sequence of writes, each replacing any file of the same name. */
  function Apply(writes: seq<(string, string)>): map<string, string>
    decreases |writes|
  {
    if writes == [] then map[]
    else
      var (name, content) := writes[|writes| - 1];
      Apply(writes[..|writes| - 1])[name := content]
  }

  /** The directory after writing every issue in turn. */
  function Directory(db: Decompositions, issues: seq<Issue>, exportedAt: string): map<string, string>
    requires AllNumbered(issues)
  {
    Apply(Writes(db, issues, exportedAt))
  }

  /**
    `write_issues(issues, output_dir, exported_at)`. It writes one file per
    issue, in order, and returns how many it wrote. On the first issue
    without a number it raises; the files written before it stay.
   */
  method WriteIssues(db: Decompositions, issues: seq<Issue>, exportedAt: string)
      returns (dir: map<string, string>, outcome: Result<nat, WriteError>)
    ensures outcome.Success? <==> AllNumbered(issues)
    ensures outcome.Success? ==> outcome.value == |issues| && dir == Directory(db, issues, exportedAt)
    ensures outcome.Failure? ==>
              var k := outcome.error.index;
              && k < |issues| && issues[k].number.None?
              && AllNumbered(issues[..k])
              && dir == Directory(db, issues[..k], exportedAt)
  {
    dir := map[];
    var count := 0;
    for i := 0 to |issues|
      invariant count == i
      invariant AllNumbered(issues[..i])
      invariant dir == Directory(db, issues[..i], exportedAt)
    {
      var issue := issues[i];
      if issue.number.None? {
        return dir, Failure(MissingNumber(i));
      }
      var (name, content) := Entry(db, issue, exportedAt);
      WritesStep(db, issues, exportedAt, i);
      dir := dir[name := content];
      count := count + 1;
    }
    assert issues[..|issues|] == issues;
    return dir, Success(count);
  }

  /** Writing one more issue is one more map update. */
  lemma WritesStep(db: Decompositions, issues: seq<Issue>, exportedAt: string, i: nat)
    requires i < |issues| && AllNumbered(issues[..i]) && issues[i].number.Some?
    ensures AllNumbered(issues[..i + 1])
    ensures Writes(db, issues[..i + 1], exportedAt) == Writes(db, issues[..i], exportedAt) + [Entry(db, issues[i], exportedAt)]
    ensures var (name, content) := Entry(db, issues[i], exportedAt);
            Directory(db, issues[..i + 1], exportedAt) == Directory(db, issues[..i], exportedAt)[name := content]
  {
    assert issues[..i + 1] == issues[..i] + [issues[i]];
    WritesSnoc(db, issues[..i], issues[i], exportedAt);
    ApplySnoc(Writes(db, issues[..i], exportedAt), Entry(db, issues[i], exportedAt));
  }

  /** One more write is one more map update. */
  lemma ApplySnoc(writes: seq<(string, string)>, w: (string, string))
    ensures Apply(writes + [w]) == Apply(writes)[w.0 := w.1]
  {
    assert (writes + [w])[..|writes|] == writes;
  }

  lemma WritesSnoc(db: Decompositions, init: seq<Issue>, x: Issue, exportedAt: string)
    requires AllNumbered(init) && x.number.Some?
    ensures AllNumbered(init + [x])
    ensures Writes(db, init + [x], exportedAt) == Writes(db, init, exportedAt) + [Entry(db, x, exportedAt)]
  {
    var next := init + [x];
    assert AllNumbered(next) by {
      forall k | 0 <= k < |next| ensures next[k].number.Some? {
        if k < |init| {
          assert next[k] == init[k];
        }
      }
    }
    assert next[..|next| - 1] == init;
    assert next[|next| - 1] == x;
  }

  /** The `i`th write is the `i`th issue's file. */
  lemma {:induction false} WritesAt(db: Decompositions, issues: seq<Issue>, exportedAt: string, i: nat)
    requires AllNumbered(issues) && i < |issues|
    ensures Writes(db, issues, exportedAt)[i] == Entry(db, issues[i], exportedAt)
    decreases |issues|
  {
    var init := issues[..|issues| - 1];
    if i < |issues| - 1 {
      assert AllNumbered(init) by {
        forall k | 0 <= k < |init| ensures init[k].number.Some? {
          assert init[k] == issues[k];
        }
      }
      WritesAt(db, init, exportedAt, i);
      assert init[i] == issues[i];
    }
  }

  /** A name is in the directory exactly when some write used it. */
  lemma {:induction false} ApplyKeys(writes: seq<(string, string)>)
    ensures forall i :: 0 <= i < |writes| ==> writes[i].0 in Apply(writes)
    ensures forall name :: name in Apply(writes) ==> exists i :: 0 <= i < |writes| && writes[i].0 == name
    decreases |writes|
  {
    if writes != [] {
      var init := writes[..|writes| - 1];
      ApplyKeys(init);
      forall name | name in Apply(writes)
        ensures exists i :: 0 <= i < |writes| && writes[i].0 == name
      {
        if name != writes[|writes| - 1].0 {
          var i :| 0 <= i < |init| && init[i].0 == name;
          assert writes[i] == init[i];
        }
      }
      forall i | 0 <= i < |writes| ensures writes[i].0 in Apply(writes) {
        if i < |writes| - 1 {
          assert writes[i] == init[i];
        }
      }
    }
  }

  /** A file holds what the last write to its name put there. */
  lemma {:induction false} ApplyLastWins(writes: seq<(string, string)>, i: nat)
    requires i < |writes|
    requires forall j :: i < j < |writes| ==> writes[j].0 != writes[i].0
    ensures writes[i].0 in Apply(writes) && Apply(writes)[writes[i].0] == writes[i].1
    decreases |writes|
  {
    if i < |writes| - 1 {
      var init := writes[..|writes| - 1];
      assert init[i] == writes[i];
      forall j | i < j < |init| ensures init[j].0 != init[i].0 {
        assert init[j] == writes[j];
      }
      ApplyLastWins(init, i);
    }
  }

  /** With no name written twice there is one file per write. */
  predicate DistinctKeys(writes: seq<(string, string)>) {
    forall i, j :: 0 <= i < j < |writes| ==> writes[i].0 != writes[j].0
  }

  lemma {:induction false} ApplyDistinct(writes: seq<(string, string)>)
    requires DistinctKeys(writes)
    ensures |Apply(writes)| == |writes|
    decreases |writes|
  {
    if writes != [] {
      var init := writes[..|writes| - 1];
      var last := writes[|writes| - 1];
      assert DistinctKeys(init) by {
        forall i, j | 0 <= i < j < |init| ensures init[i].0 != init[j].0 {
          assert init[i] == writes[i] && init[j] == writes[j];
        }
      }
      ApplyDistinct(init);
      ApplyKeys(init);
      forall i | 0 <= i < |init| ensures init[i].0 != last.0 {
        assert init[i] == writes[i];
      }
      assert last.0 !in Apply(init);
    }
  }

  predicate DistinctNumbers(issues: seq<Issue>) {
    forall i, j :: 0 <= i < j < |issues| ==> issues[i].number != issues[j].number
  }

  /**
    When no two issues share a number, the export leaves exactly one file per
    issue: the count `write_issues` returns is then the number of files in
    the directory (each holding its issue's text, by `DirectoryContents`).
   */
  lemma DirectoryDistinct(db: Decompositions, issues: seq<Issue>, exportedAt: string)
    requires AllNumbered(issues) && DistinctNumbers(issues)
    ensures |Directory(db, issues, exportedAt)| == |issues|
  {
    DistinctNames(db, issues, exportedAt);
    ApplyDistinct(Writes(db, issues, exportedAt));
  }

  /** Distinct numbers give distinct file names. */
  lemma DistinctNames(db: Decompositions, issues: seq<Issue>, exportedAt: string)
    requires AllNumbered(issues) && DistinctNumbers(issues)
    ensures DistinctKeys(Writes(db, issues, exportedAt))
  {
    var w := Writes(db, issues, exportedAt);
    forall i, j | 0 <= i < j < |w| ensures w[i].0 != w[j].0 {
      WritesAt(db, issues, exportedAt, i);
      WritesAt(db, issues, exportedAt, j);
      FileNameInjective(db, issues[i].number.value, issues[i].title, issues[j].number.value, issues[j].title);
    }
  }

  /**
    The file named after an issue holds that issue's text unless a later
    issue with the same number replaced it.
   */
  lemma DirectoryContents(db: Decompositions, issues: seq<Issue>, exportedAt: string, i: nat)
    requires AllNumbered(issues) && i < |issues|
    requires forall j :: i < j < |issues| ==> issues[j].number != issues[i].number
    ensures FileOf(db, issues[i]) in Directory(db, issues, exportedAt)
    ensures Directory(db, issues, exportedAt)[FileOf(db, issues[i])] == FormatIssueYaml(issues[i], exportedAt)
  {
    var w := Writes(db, issues, exportedAt);
    forall j | i < j < |w| ensures w[j].0 != w[i].0 {
      WritesAt(db, issues, exportedAt, i);
      WritesAt(db, issues, exportedAt, j);
      FileNameInjective(db, issues[i].number.value, issues[i].title, issues[j].number.value, issues[j].title);
    }
    WritesAt(db, issues, exportedAt, i);
    ApplyLastWins(w, i);
  }

  // ---------------------------------------------------------------------------
  // The pull-request filter
  // ---------------------------------------------------------------------------

  /** `[issue for issue in issues if "pull_request" not in issue]`. */
  function NonPullRequests(issues: seq<Issue>): (r: seq<Issue>)
    ensures |r| <= |issues|
    decreases |issues|
  {
    if issues == [] then []
    else (if issues[0].isPullRequest then [] else [issues[0]]) + NonPullRequests(issues[1..])
  }

  /** Without `--include-prs` the pull requests are dropped; with it the list is kept as fetched. */
  function SelectIssues(issues: seq<Issue>, includePrs: bool): seq<Issue> {
    if includePrs then issues else NonPullRequests(issues)
  }

  /**
    The filter works entry by entry: filtering a concatenation filters each
    part, and a single entry is kept exactly when it is not a pull request.
    Together these fix the result: the non-pull-requests, in their order.
   */
  lemma {:induction false} NonPullRequestsAppend(a: seq<Issue>, b: seq<Issue>)
    ensures NonPullRequests(a + b) == NonPullRequests(a) + NonPullRequests(b)
    decreases |a|
  {
    if a == [] {
      assert a + b == b;
    } else {
      assert (a + b)[0] == a[0];
      assert (a + b)[1..] == a[1..] + b;
      NonPullRequestsAppend(a[1..], b);
    }
  }

  lemma NonPullRequestsSingle(x: Issue)
    ensures NonPullRequests([x]) == if x.isPullRequest then [] else [x]
  {
    assert [x][1..] == [];
  }

  /** No pull request survives, and every other entry does. */
  lemma {:induction false} NonPullRequestsKeeps(issues: seq<Issue>)
    ensures forall i :: 0 <= i < |NonPullRequests(issues)| ==> !NonPullRequests(issues)[i].isPullRequest
    ensures forall x :: x in issues && !x.isPullRequest ==> x in NonPullRequests(issues)
    ensures forall x :: x in NonPullRequests(issues) ==> x in issues
    decreases |issues|
  {
    if issues != [] {
      NonPullRequestsKeeps(issues[1..]);
      var head := if issues[0].isPullRequest then [] else [issues[0]];
      var r := NonPullRequests(issues);
      assert r == head + NonPullRequests(issues[1..]);
      forall i | 0 <= i < |r| ensures !r[i].isPullRequest {
        if i >= |head| {
          assert r[i] == NonPullRequests(issues[1..])[i - |head|];
        }
      }
      forall x | x in issues ensures x == issues[0] || x in issues[1..] {
        var k :| 0 <= k < |issues| && issues[k] == x;
        if k > 0 {
          assert issues[1..][k - 1] == x;
        }
      }
    }
  }

  /** A list without pull requests passes the filter unchanged; filtering twice is filtering once. */
  lemma {:induction false} NonPullRequestsIdempotent(issues: seq<Issue>)
    ensures NonPullRequests(NonPullRequests(issues)) == NonPullRequests(issues)
    decreases |issues|
  {
    if issues != [] {
      var head := if issues[0].isPullRequest then [] else [issues[0]];
      NonPullRequestsAppend(head, NonPullRequests(issues[1..]));
      NonPullRequestsSingle(issues[0]);
      NonPullRequestsIdempotent(issues[1..]);
      if head == [] {
        assert NonPullRequests(head) == [];
      }
    }
  }

  /**
    The export `main` runs once the issues are fetched: filter, then write.
    The count it reports is the number of issues left after the filter.
   */
  method ExportIssues(db: Decompositions, fetched: seq<Issue>, includePrs: bool, exportedAt: string)
      returns (dir: map<string, string>, outcome: Result<nat, WriteError>)
    ensures outcome.Success? <==> AllNumbered(SelectIssues(fetched, includePrs))
    ensures outcome.Success? ==>
              && outcome.value == |SelectIssues(fetched, includePrs)|
              && dir == Directory(db, SelectIssues(fetched, includePrs), exportedAt)
    ensures !includePrs && outcome.Success? ==> outcome.value <= |fetched|
  {
    var selected := SelectIssues(fetched, includePrs);
    dir, outcome := WriteIssues(db, selected, exportedAt);
  }
}
