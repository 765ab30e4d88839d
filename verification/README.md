# Issue exporter, modelled in Dafny

`scripts/export_issues.py` downloads the issues of a GitHub repository with the
`gh` command-line client and writes one YAML file per issue. This project
models the parts of that script that compute something. The JSON records it
reads become the `Issue` datatype. Git's output, the environment, the clock
and the fetched list become parameters. The proofs say what each computation
promises:

- `slugify` (module `Slug`, meaning in `SlugWords`) turns a title into a file-name slug. Its NFKD step decomposes characters with a table of decompositions, which stands for the Unicode database and is a parameter. The result is always a slug within the length bound. It is the dash-joined ASCII words of the normalised title, cut to the bound without a trailing dash, and `"issue"` when there is no letter or digit. Slugifying a slug changes nothing.
- `yaml_escape` (module `YamlScalar`) writes a text value as a YAML scalar. It is left plain exactly when no indicator character occurs and there is no whitespace at either end. Otherwise it is double-quoted, and the quoted form reads back as the original text.
- `format_issue_yaml` (module `IssueYaml`) lays out the document. A small reader for that layout is defined too. Whenever no scalar field holds a line feed, the document reads back as exactly the issue's fields, with the script's defaults filled in, the labels in order and the body normalised.
- `write_issues` (module `Export`) names each file `{number:05d}-{slug}.yml` and writes it. The output directory is a map from file name to contents. The file name gives the issue number back. Distinct numbers give distinct files, so there is one file per issue, and each file holds its issue's document. The returned count is the number of issues. An issue without a number stops the loop, as Python's `TypeError` would, and leaves only the files written before it.
- The pull-request filter of `main` keeps exactly the entries that are not pull requests, in order.
- The URL parse of `detect_repo` (module `Remote`) models `re.search` as the leftmost match of the pattern, with both runs greedy. `detect_repo` runs the pattern as written, with its unescaped dot; the lemmas about URLs hold for that reading and for the literal one. HTTPS and SSH remotes name `owner/name`. `main` stops when neither `--repo` nor detection yields a repository.

Modules: `Wrappers` (Option, Result), `Text` (Python string primitives: `strip`, `split`, `join`, `replace`, slicing), `Decimal` (`str(int)`, `format(n, "05d")` and reading an integer back), `Slug`, `SlugWords`, `YamlScalar`, `Issues`, `IssueYaml`, `Export`, `Remote`.

## Model

| member | source | states |
|---|---|---|
| Slug.NfkdAppend | scripts/export_issues.py:37 | The model's decomposition, which is NFKD without the canonical reordering of marks, works character by character: decomposing a concatenation concatenates the decomposed parts. |
| Slug.NfkdUnchanged | scripts/export_issues.py:37 | Under the model's decomposition, text without decomposable characters, ASCII text in particular, is left as it is. |
| Slug.SlugifyDecomposed | scripts/export_issues.py:36-42 | A word ending in a letter that NFKD splits into an ASCII letter and a combining mark keeps that letter, lower-cased: `Café` gives `cafe`. |
| Slug.Slugify | scripts/export_issues.py:38-42 | Applied to the NFKD text, the slug holds only lower-case ASCII letters, digits and single dashes, with no dash at either end. It is at most `max_length` long and is non-empty when `max_length > 0`. A title with no ASCII letter or digit gives `"issue"` cut to the bound. |
| SlugWords.SlugifyIsJoinedWords | scripts/export_issues.py:38-42 | Cleaning yields the ASCII letter-and-digit words of the title, lower-cased and joined by single dashes. There are no words exactly when the title has no letter or digit. When the words fit, `slugify` returns exactly them. |
| SlugWords.SlugifyCut | scripts/export_issues.py:38-42 | For any bound `m >= 0` and a title with a letter or digit, the slug is the dash-joined lower-cased words cut to `m` characters, without the one dash the cut can leave at the end. |
| SlugWords.TrimCollapseIsJoinedWords | scripts/export_issues.py:39 | Replacing separator runs with a dash and then stripping dashes is the same as joining the words with single dashes. |
| Slug.SlugifyIdempotent | scripts/export_issues.py:36-42 | Slugifying a slug, with the same non-negative bound, gives the same slug. |
| Slug.SlugifySlug | scripts/export_issues.py:36-42 | A non-empty slug within the bound is its own slug. |
| YamlScalar.YamlEscapeForm | scripts/export_issues.py:73-81 | The text is returned unchanged exactly when it needs no quotes. Otherwise the result is a double quote, text that unescapes to the input, and a closing double quote. |
| YamlScalar.ReadScalarYamlEscape | scripts/export_issues.py:73-81 | A reader of the scalar gets back exactly the text that was escaped, for every text. |
| YamlScalar.EdgeSpaceStrip | scripts/export_issues.py:76 | `text.strip() != text` holds exactly when the first or the last character is Python whitespace. |
| YamlScalar.UnescapeEscape | scripts/export_issues.py:80 | Unescaping the backslash-escaped text gives the text back. |
| YamlScalar.EscapeUnescape | scripts/export_issues.py:80 | Every string the unescaper accepts is the escape of what it returns. |
| YamlScalar.EscapeBodyIsEach | scripts/export_issues.py:80 | The two `replace` passes, backslashes first, escape each character independently. |
| YamlScalar.YamlEscapeNewline | scripts/export_issues.py:73-81 | The escaped text contains a line feed exactly when the input does. |
| IssueYaml.FormatIssueYamlRoundTrip | scripts/export_issues.py:84-117 | When no scalar field holds a line feed, the document reads back as the issue's fields. The defaults `Untitled`, `unknown` and `""` are filled in, the number is kept or absent, the labels are in order, and the body is normalised. |
| IssueYaml.FormatIssueYamlEnds | scripts/export_issues.py:111-117 | The document ends in exactly one line feed. The character before it closes the last body line, which is indented and is never a line feed, so no blank line ends the file. |
| IssueYaml.ParseLabelItemsLines | scripts/export_issues.py:96-98 | The `  - label` lines read back as the label names, in order, and reading stops at the first line that is not an item. |
| IssueYaml.ParseLabelBlockLabelLines | scripts/export_issues.py:96-100 | The label block, a lone `  -` when there are no labels, reads back as the label list. |
| IssueYaml.ParseBodyLines | scripts/export_issues.py:111-115 | The indented body block reads back as the body it was made from, the empty body included. |
| IssueYaml.ScalarFieldRoundTrip | scripts/export_issues.py:91-93 | A `key: yaml_escape(value)` line reads back as the value. |
| IssueYaml.ParseNumberText | scripts/export_issues.py:90 | The `number:` line reads back as the number, or as absent when the issue has none. |
| IssueYaml.BodyLinesUniform | scripts/export_issues.py:111-115 | The empty-body branch, a single `"  "` line, is what indenting the lines of `"".split("\n")` gives. |
| IssueYaml.NormalizeBodyShape | scripts/export_issues.py:86-87 | The normalised body has no trailing whitespace. A body with no carriage return and no trailing whitespace is kept as it is. |
| Text.ReplaceCrLfOnlyDropsCr | scripts/export_issues.py:87 | `replace("\r\n", "\n")` removes only carriage returns. |
| Text.JoinSplit | scripts/export_issues.py:112 | Joining the pieces of `split` with the separator gives the text back. |
| Text.SplitJoin | scripts/export_issues.py:117 | Splitting lines joined by a separator they do not contain gives the lines back. |
| Decimal.LeadingIntFormat05d | scripts/export_issues.py:126 | `format(n, "05d")` is at least five characters. Reading the leading integer gives `n` back, negative numbers included, when a non-digit follows. |
| Export.FileNameNumber | scripts/export_issues.py:126 | The leading integer of the file name is the issue number. |
| Export.FileNameInjective | scripts/export_issues.py:126 | Issues with different numbers get different file names, whatever their titles. |
| Export.FileNameSlug | scripts/export_issues.py:125-126 | The file name is the padded number, `-`, a non-empty slug of at most 60 characters, and `.yml`. |
| Export.FileNameUntitled | scripts/export_issues.py:125-126 | A title whose normalised text has no ASCII letter or digit gets the same file name as an untitled issue, namely `issue`. |
| Export.TitleSlugIsSlugify | scripts/export_issues.py:125-126 | The slug used in the name is `slugify(issue.get("title") or "issue")`, NFKD step included. |
| Export.WriteIssues | scripts/export_issues.py:120-131 | Success holds exactly when every issue has a number. The count is then the number of issues, and the directory is the fold of the writes in order. Otherwise the first issue without a number is reported, and only the files before it were written. |
| Export.ApplyLastWins | scripts/export_issues.py:127-129 | A later write to the same path replaces an earlier one; the last write to a name is its contents. |
| Export.DirectoryDistinct | scripts/export_issues.py:120-131 | With distinct issue numbers the directory holds exactly one file per issue. |
| Export.DirectoryContents | scripts/export_issues.py:123-129 | Each issue's file holds that issue's document, unless a later issue has the same number. |
| Export.NonPullRequestsKeeps | scripts/export_issues.py:168-169 | The filtered list contains no pull request, keeps every issue that is not one, and adds nothing. |
| Export.NonPullRequestsAppend | scripts/export_issues.py:169 | The filter works entry by entry: filtering a concatenation filters each part. |
| Export.NonPullRequestsIdempotent | scripts/export_issues.py:169 | Filtering twice is filtering once. |
| Export.ExportIssues | scripts/export_issues.py:167-172 | The issues selected by the flag are written. Without `--include-prs`, the count is at most the number fetched. |
| Remote.ChooseRepo | scripts/export_issues.py:163-165 | A non-empty `--repo` wins. Otherwise the run goes on exactly when detection gave a non-empty repository, and then with that repository. It never goes on with an empty one. |
| Remote.DetectRepoFallback | scripts/export_issues.py:25-27 | An empty or all-whitespace remote gives the environment's repository. Any other remote gives the parse of the stripped URL with the pattern as written. |
| Remote.DetectRepoHttps | scripts/export_issues.py:18-33 | git's `https://github.com/owner/name` line, with its line feed, gives `owner/name`. |
| Remote.HttpsRemote | scripts/export_issues.py:29-33 | `https://github.com/owner/name`, with or without `.git`, names `owner/name`, with the dot read as written or literally. |
| Remote.SshRemote | scripts/export_issues.py:29-33 | `git@github.com:owner/name.git` names `owner/name`, with the dot read as written or literally. |
| Remote.SearchFromLeftmost | scripts/export_issues.py:30 | The search returns the match at the leftmost position where the pattern matches. |
| Remote.SearchFromNone | scripts/export_issues.py:30-32 | When the search finds nothing, the pattern matches at no position. |
| Remote.SearchFromNoMatch | scripts/export_issues.py:30-32 | When the pattern matches at no position, the search finds nothing. |
| Remote.RepoFromRemoteShape | scripts/export_issues.py:30-33 | Under either reading of the dot, a detected repository is exactly two parts around one `/`: a non-empty owner without `/` and a non-empty name without `/` or `.`. |
| Remote.UnescapedDotAccepts | scripts/export_issues.py:30 | As written, the pattern accepts `https://github` + c + `com/o/r` for any character c other than a dot or a line feed, and names `o/r`. |
| Remote.LiteralDotRejects | scripts/export_issues.py:30 | With the dot taken literally, the same URLs name no repository. |

## Left out

- Running `git config --get remote.origin.url` is left out. Its standard output is a parameter of `DetectRepo`.
- Reading `GITHUB_REPOSITORY` from the environment is left out; its value is a parameter.
- `fetch_issues` (lines 45-70) is left out: it runs `gh api --paginate` and decodes JSON lines. The fetched list is a parameter, already decoded into `Issue` records.
- JSON values of the wrong type, or `null` where the script calls `yaml_escape` on them, are left out. A field is either absent (`None`) or present with its expected type. `body` follows `or ""`, so an absent body stands for `null` too.
- A label object without a `name` key is left out. The script indexes `label["name"]` at line 85, which raises `KeyError` for such a label; in the model every `Label` has a name.
- The Unicode database is left out. Its compatibility decompositions are a parameter (`Decompositions`), mapping each decomposable character to its full decomposition. The canonical reordering of combining marks is not modelled. It only moves non-ASCII marks past each other, and the ASCII filter drops them all.
- File I/O is modelled as a map from file name to contents. That covers `os.makedirs`, `open`, `handle.write` and the output directory's path. Existing files from earlier runs are not modelled.
- The clock is left out. The `exported_at` timestamp is a parameter.
- `argparse` is left out, including the `--state` choices, which only pass through to the API. So is the final `print`.
- Nothing bounds integers, so a number too wide for a machine word is not at issue. `format(n, "05d")` is modelled with Python's sign-aware padding.
- IssueYaml.FormatIssueYamlRoundTrip: requires that no scalar field holds a line feed. A quoted scalar with a line feed spans two physical lines in the script's own layout, and the line-oriented reader does not rejoin them.
- YamlScalar.YamlEscapeForm: states the quoting the script applies, which escapes only backslash and double quote. It does not claim that the output is a complete YAML 1.2 double-quoted scalar. A full YAML reader would fold a raw line feed inside quotes into a space.

## Findings

| source | as written | input that shows it | evidently intended | confidence | as-written member | corrected member |
|---|---|---|---|---|---|---|
| scripts/export_issues.py:30 | The pattern `github.com[:/]...` leaves the dot unescaped, so it matches any character but a line feed. | The remote `https://githubXcom/o/r` is read as the repository `o/r`. | The host `github.com` with a literal dot. | not executed | Remote.UnescapedDotAccepts | Remote.LiteralDotRejects |

`RepoFromRemote` takes the reading of the dot as a parameter. `DetectRepo` follows the script and uses the pattern as written.
