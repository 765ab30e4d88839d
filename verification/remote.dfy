/**
  `detect_repo` (scripts/export_issues.py): the `owner/name` of the GitHub
  repository a git remote URL points at, and how `main` settles which
  repository to export.

  The remote URL is searched for `github.com[:/]`, an owner (one or more
  characters other than `/`), a `/` and a repository name (one or more
  characters other than `/` and `.`). The search takes the leftmost match;
  both runs are greedy, and since neither can be followed by another
  character of its own class the greedy match is the only one at its
  position. In the pattern as written the dot of `github.com` is not
  escaped, so it matches any character but a line feed; `literalDot`
  selects between that reading and the literal dot.
 */
module Remote {
  import opened Wrappers
  import opened Text

  /** The host name `github.com` is eleven characters with the following `:` or `/`. */
  const HostLength: nat := 11

  /** What the dot of `github.com` matches: only `.`, or (unescaped) any character but a line feed. */
  predicate DotMatches(c: char, literalDot: bool) {
    if literalDot then c == '.' else c != '\n'
  }

  /** `github.com[:/]` matches at position `p`. */
  predicate HostAt(s: string, p: nat, literalDot: bool) {
    && p + HostLength <= |s|
    && s[p..p + 6] == "github"
    && DotMatches(s[p + 6], literalDot)
    && s[p + 7..p + 10] == "com"
    && (s[p + 10] == ':' || s[p + 10] == '/')
  }

  /** Where the owner run stops. */
  predicate IsSlash(c: char) {
    c == '/'
  }

  /** Where the repository name run stops. */
  predicate EndsName(c: char) {
    c == '/' || c == '.'
  }

  predicate IsOwner(o: string) {
    o != [] && '/' !in o
  }

  predicate IsRepoName(r: string) {
    r != [] && '/' !in r && '.' !in r
  }

  /** The owner and repository name when the whole pattern matches at `p`. */
  function MatchAt(s: string, p: nat, literalDot: bool): Option<(string, string)>
    requires p <= |s|
  {
    if !HostAt(s, p, literalDot) then None else RunsAt(s, p + HostLength)
  }

  /** The owner, `/` and name that follow the host, starting at `o`. */
  function RunsAt(s: string, o: nat): Option<(string, string)>
    requires o <= |s|
  {
    var oe := RunEnd(s, o, IsSlash);
    if oe == o || oe == |s| then None
    else
      var r := oe + 1;
      var re := RunEnd(s, r, EndsName);
      if re == r then None else Some((s[o..oe], s[r..re]))
  }

  /** `re.search`: the match at the leftmost position from `p` on where there is one. */
  function SearchFrom(s: string, p: nat, literalDot: bool): Option<(string, string)>
    requires p <= |s|
    decreases |s| - p
  {
    match MatchAt(s, p, literalDot)
    case Some(m) => Some(m)
    case None => if p == |s| then None else SearchFrom(s, p + 1, literalDot)
  }

  /**
    The repository a remote URL names: `owner/name` from the leftmost match.
    `detect_repo` runs the pattern as written (`literalDot` false); the
    literal reading of the dot is what the pattern evidently means.
   */
  function RepoFromRemote(remote: string, literalDot: bool): Option<string> {
    match SearchFrom(remote, 0, literalDot)
    case None => None
    case Some((owner, repo)) => Some(owner + "/" + repo)
  }

  /**
    `detect_repo()`, with the output of `git config --get remote.origin.url`
    and the `GITHUB_REPOSITORY` environment variable as parameters. An empty
    (or all-whitespace) remote falls back to the environment; any other is
    searched with the pattern as written.
   */
  function DetectRepo(gitStdout: string, envRepo: Option<string>): Option<string> {
    var remote := PyStrip(gitStdout);
    if remote == [] then envRepo else RepoFromRemote(remote, false)
  }

  /** `main` stops with this when it has no repository to export. */
  datatype RepoError = NoRepository

  /** `args.repo or detect_repo()`, then `if not repo: raise SystemExit(...)`. */
  function ChooseRepo(argRepo: Option<string>, detected: Option<string>): (r: Result<string, RepoError>)
    ensures r.Success? ==> r.value != []
    ensures argRepo.Some? && argRepo.value != [] ==> r == Success(argRepo.value)
    ensures (argRepo.None? || argRepo.value == []) ==>
              (r.Success? <==> detected.Some? && detected.value != [])
    ensures (argRepo.None? || argRepo.value == []) && r.Success? ==> detected == Some(r.value)
  {
    if argRepo.Some? && argRepo.value != [] then Success(argRepo.value)
    else if detected.Some? && detected.value != [] then Success(detected.value)
    else Failure(NoRepository)
  }

  // ---------------------------------------------------------------------------
  // Properties
  // ---------------------------------------------------------------------------

  /** A match names a non-empty owner without `/` and a non-empty name without `/` or `.`. */
  lemma MatchAtShape(s: string, p: nat, literalDot: bool)
    requires p <= |s|
    ensures var m := MatchAt(s, p, literalDot);
            m.Some? ==> IsOwner(m.value.0) && IsRepoName(m.value.1)
  {
    if MatchAt(s, p, literalDot).Some? {
      var o := p + HostLength;
      var oe := RunEnd(s, o, IsSlash);
      var r := oe + 1;
      var re := RunEnd(s, r, EndsName);
      var owner := s[o..oe];
      var name := s[r..re];
      RunEndRun(s, o, IsSlash);
      RunEndRun(s, r, EndsName);
      forall k | 0 <= k < |owner| ensures owner[k] != '/' {
        assert owner[k] == s[o + k];
      }
      forall k | 0 <= k < |name| ensures name[k] != '/' && name[k] != '.' {
        assert name[k] == s[r + k];
      }
    }
  }

  /** When the search finds nothing, the pattern matches at no position from `p` on. */
  lemma {:induction false} SearchFromNone(s: string, p: nat, literalDot: bool, q: nat)
    requires p <= q <= |s|
    requires SearchFrom(s, p, literalDot).None?
    ensures MatchAt(s, q, literalDot).None?
    decreases q - p
  {
    if p < q {
      SearchFromNone(s, p + 1, literalDot, q);
    }
  }

  /** When the pattern matches at no position from `p` on, the search finds nothing. */
  lemma {:induction false} SearchFromNoMatch(s: string, p: nat, literalDot: bool)
    requires p <= |s|
    requires forall q :: p <= q <= |s| ==> MatchAt(s, q, literalDot).None?
    ensures SearchFrom(s, p, literalDot).None?
    decreases |s| - p
  {
    if p < |s| {
      SearchFromNoMatch(s, p + 1, literalDot);
    }
  }

  /** The search returns the match at the leftmost position where there is one. */
  lemma {:induction false} SearchFromLeftmost(s: string, p: nat, literalDot: bool, q: nat)
    requires p <= q <= |s|
    requires MatchAt(s, q, literalDot).Some?
    requires forall k :: p <= k < q ==> MatchAt(s, k, literalDot).None?
    ensures SearchFrom(s, p, literalDot) == MatchAt(s, q, literalDot)
    decreases q - p
  {
    if p < q {
      SearchFromLeftmost(s, p + 1, literalDot, q);
    }
  }

  /** What the search returns is a well-formed `owner/name`. */
  lemma {:induction false} SearchFromShape(s: string, p: nat, literalDot: bool)
    requires p <= |s|
    ensures var m := SearchFrom(s, p, literalDot);
            m.Some? ==> IsOwner(m.value.0) && IsRepoName(m.value.1)
    decreases |s| - p
  {
    MatchAtShape(s, p, literalDot);
    if MatchAt(s, p, literalDot).None? && p < |s| {
      SearchFromShape(s, p + 1, literalDot);
    }
  }

  /** The result is `owner/name`: it splits at its one `/` into the two parts. */
  lemma RepoFromRemoteShape(remote: string, literalDot: bool)
    ensures RepoFromRemote(remote, literalDot).Some? ==>
              var parts := Split(RepoFromRemote(remote, literalDot).value, '/');
              |parts| == 2 && IsOwner(parts[0]) && IsRepoName(parts[1])
  {
    SearchFromShape(remote, 0, literalDot);
    var m := SearchFrom(remote, 0, literalDot);
    if m.Some? {
      var (owner, name) := m.value;
      SplitAtSep(owner, name, '/');
      SplitNoSep(name, '/');
    }
  }

  /** Where the text spells `github`, a dot-like character, `com` and a separator, the host matches as far as the dot allows. */
  lemma HostAtText(s: string, p: nat, dot: char, sep: char, rest: string, literalDot: bool)
    requires sep == ':' || sep == '/'
    requires p <= |s| && s[p..] == "github" + [dot] + "com" + [sep] + rest
    ensures HostAt(s, p, literalDot) <==> DotMatches(dot, literalDot)
    ensures p + HostLength <= |s| && s[p + HostLength..] == rest
  {
    var u := s[p..];
    assert |u| == HostLength + |rest|;
    assert s[p..p + 6] == u[..6] == "github";
    assert s[p + 6] == u[6] == dot;
    assert s[p + 7..p + 10] == u[7..10] == "com";
    assert s[p + 10] == u[10] == sep;
    assert s[p + HostLength..] == u[HostLength..] == rest;
  }

  /** The owner run stops at the `/` after the owner. */
  lemma OwnerRun(s: string, o: nat, owner: string, rest: string)
    requires IsOwner(owner)
    requires o <= |s| && s[o..] == owner + "/" + rest
    ensures RunEnd(s, o, IsSlash) == o + |owner| < |s|
    ensures s[o..o + |owner|] == owner && s[o + |owner| + 1..] == rest
  {
    var u := s[o..];
    var oe := o + |owner|;
    forall k | o <= k < oe ensures s[k] != '/' {
      assert s[k] == u[k - o] == owner[k - o];
    }
    assert s[oe] == u[|owner|] == '/';
    RunEndIs(s, o, oe, IsSlash);
    assert s[o..oe] == u[..|owner|] == owner;
    assert s[oe + 1..] == u[|owner| + 1..] == rest;
  }

  /** The name run stops at the end, or at the `/` or `.` that follows the name. */
  lemma NameRun(s: string, r: nat, name: string, tail: string)
    requires IsRepoName(name)
    requires tail == [] || tail[0] == '/' || tail[0] == '.'
    requires r <= |s| && s[r..] == name + tail
    ensures RunEnd(s, r, EndsName) == r + |name|
    ensures s[r..r + |name|] == name
  {
    var u := s[r..];
    var re := r + |name|;
    forall k | r <= k < re ensures !(s[k] == '/' || s[k] == '.') {
      assert s[k] == u[k - r] == name[k - r];
    }
    if re < |s| {
      assert s[re] == u[|name|] == tail[0];
    }
    RunEndIs(s, r, re, EndsName);
    assert s[r..re] == u[..|name|] == name;
  }

  /** At position `p` the text spells the host, a separator, owner, `/`, name and a tail. */
  lemma MatchAtUrl(s: string, p: nat, dot: char, sep: char, owner: string, name: string, tail: string, literalDot: bool)
    requires sep == ':' || sep == '/'
    requires IsOwner(owner) && IsRepoName(name)
    requires tail == [] || tail[0] == '/' || tail[0] == '.'
    requires p <= |s| && s[p..] == "github" + [dot] + "com" + [sep] + (owner + "/" + (name + tail))
    ensures MatchAt(s, p, literalDot) == if DotMatches(dot, literalDot) then Some((owner, name)) else None
  {
    HostAtText(s, p, dot, sep, owner + "/" + (name + tail), literalDot);
    if DotMatches(dot, literalDot) {
      RunsAtText(s, p + HostLength, owner, name, tail);
    }
  }

  /** After the host, the text spells owner, `/`, name and a tail that stops the name. */
  lemma RunsAtText(s: string, o: nat, owner: string, name: string, tail: string)
    requires IsOwner(owner) && IsRepoName(name)
    requires tail == [] || tail[0] == '/' || tail[0] == '.'
    requires o <= |s| && s[o..] == owner + "/" + (name + tail)
    ensures RunsAt(s, o) == Some((owner, name))
  {
    OwnerRun(s, o, owner, name + tail);
    NameRun(s, o + |owner| + 1, name, tail);
    RunsAtParts(s, o, owner, name);
  }

  /** Where the two runs are `owner` and `name`, they are what the pattern captures. */
  lemma RunsAtParts(s: string, o: nat, owner: string, name: string)
    requires owner != [] && name != []
    requires o <= |s| && RunEnd(s, o, IsSlash) == o + |owner| < |s| && s[o..o + |owner|] == owner
    requires var r := o + |owner| + 1;
             RunEnd(s, r, EndsName) == r + |name| && s[r..r + |name|] == name
    ensures RunsAt(s, o) == Some((owner, name))
  {
  }

  /** A text of the form `pre + rest` where `pre` has no `g` matches nowhere inside `pre`. */
  lemma NoMatchIn(s: string, pre: string, literalDot: bool)
    requires |pre| <= |s| && s[..|pre|] == pre && 'g' !in pre
    ensures forall q :: 0 <= q < |pre| ==> MatchAt(s, q, literalDot).None?
  {
    forall q | 0 <= q < |pre| ensures MatchAt(s, q, literalDot).None? {
      assert s[q] == pre[q];
      if q + 6 <= |s| {
        assert s[q..q + 6][0] == s[q];
      }
    }
  }

  /** `https://github.com/owner/name`, with or without `.git`, names `owner/name`, whichever way the dot is read. */
  lemma HttpsRemote(owner: string, name: string, gitSuffix: bool, literalDot: bool)
    requires IsOwner(owner) && IsRepoName(name)
    ensures var tail := if gitSuffix then ".git" else "";
            RepoFromRemote("https://github.com/" + owner + "/" + name + tail, literalDot) == Some(owner + "/" + name)
  {
    var tail := if gitSuffix then ".git" else "";
    var t := "github" + ['.'] + "com" + ['/'] + (owner + "/" + (name + tail));
    HttpsText(owner, name, tail);
    assert ("https://" + t)[..8] == "https://";
    NoMatchIn("https://" + t, "https://", literalDot);
    PrefixedRemote("https://", t, '/', owner, name, tail, literalDot);
  }

  lemma HttpsText(owner: string, name: string, tail: string)
    ensures "https://github.com/" + owner + "/" + name + tail
            == "https://" + ("github" + ['.'] + "com" + ['/'] + (owner + "/" + (name + tail)))
  {
    assert "https://github.com/" == "https://" + "github" + ['.'] + "com" + ['/'];
  }

  /** `git@github.com:owner/name.git` names `owner/name`, whichever way the dot is read. */
  lemma SshRemote(owner: string, name: string, literalDot: bool)
    requires IsOwner(owner) && IsRepoName(name)
    ensures RepoFromRemote("git@github.com:" + owner + "/" + name + ".git", literalDot) == Some(owner + "/" + name)
  {
    var t := "github" + ['.'] + "com" + [':'] + (owner + "/" + (name + ".git"));
    SshText(owner, name);
    assert ("git@" + t)[..4] == "git@";
    NoMatchInGitAt("git@" + t, literalDot);
    PrefixedRemote("git@", t, ':', owner, name, ".git", literalDot);
  }

  lemma SshText(owner: string, name: string)
    ensures "git@github.com:" + owner + "/" + name + ".git"
            == "git@" + ("github" + ['.'] + "com" + [':'] + (owner + "/" + (name + ".git")))
  {
    assert "git@github.com:" == "git@" + "github" + ['.'] + "com" + [':'];
  }

  /** A URL made of a prefix where nothing matches, the host, the owner, the name and a tail names `owner/name`. */
  lemma PrefixedRemote(pre: string, t: string, sep: char, owner: string, name: string, tail: string, literalDot: bool)
    requires forall q :: 0 <= q < |pre| ==> MatchAt(pre + t, q, literalDot).None?
    requires sep == ':' || sep == '/'
    requires IsOwner(owner) && IsRepoName(name)
    requires tail == [] || tail[0] == '/' || tail[0] == '.'
    requires t == "github" + ['.'] + "com" + [sep] + (owner + "/" + (name + tail))
    ensures RepoFromRemote(pre + t, literalDot) == Some(owner + "/" + name)
  {
    var s := pre + t;
    assert s[..|pre|] == pre;
    assert s[|pre|..] == t;
    MatchAtUrl(s, |pre|, '.', sep, owner, name, tail, literalDot);
    SearchFromLeftmost(s, 0, literalDot, |pre|);
  }

  /** Nothing matches inside the `git@` of an SSH remote. */
  lemma NoMatchInGitAt(s: string, literalDot: bool)
    requires |s| >= 4 && s[..4] == "git@"
    ensures forall q :: 0 <= q < 4 ==> MatchAt(s, q, literalDot).None?
  {
    forall q | 0 <= q < 4 ensures MatchAt(s, q, literalDot).None? {
      if q + 6 <= |s| {
        assert s[q..q + 6][0] == s[q];
        assert s[q..q + 6][3] == s[q + 3];
        assert s[q] == "git@"[q];
        if q == 0 {
          assert s[3] == '@';
        }
      }
    }
  }

  /**
    With the dot unescaped, a host that only resembles `github.com` is
    accepted: `https://githubXcom/o/r` (`c` = `X`) yields `o/r`.
   */
  lemma UnescapedDotAccepts(c: char)
    requires c != '.' && c != '\n'
    ensures RepoFromRemote("https://github" + [c] + "com/o/r", false) == Some("o/r")
  {
    var s := "https://github" + [c] + "com/o/r";
    assert s[..8] == "https://";
    assert s[8..] == "github" + [c] + "com" + ['/'] + ("o" + "/" + ("r" + ""));
    MatchAtUrl(s, 8, c, '/', "o", "r", "", false);
    NoMatchIn(s, "https://", false);
    SearchFromLeftmost(s, 0, false, 8);
    assert "o" + "/" + "r" == "o/r";
  }

  /** With the dot taken literally the same URL names no repository. */
  lemma LiteralDotRejects(c: char)
    requires c != '.' && c != '\n'
    ensures RepoFromRemote("https://github" + [c] + "com/o/r", true) == None
  {
    var s := "https://github" + [c] + "com/o/r";
    assert |s| == 22;
    assert s[..8] == "https://";
    assert s[8..] == "github" + [c] + "com" + ['/'] + ("o" + "/" + ("r" + ""));
    MatchAtUrl(s, 8, c, '/', "o", "r", "", true);
    NoMatchIn(s, "https://", true);
    forall q | 9 <= q <= |s| ensures MatchAt(s, q, true).None? {
      if q + HostLength <= |s| {
        assert s[q..q + 6][0] == s[q];
        assert s[q] == s[8..][q - 8];
      }
    }
    SearchFromNoMatch(s, 0, true);
  }

  /** An empty or all-whitespace remote falls back to the environment; otherwise the URL decides. */
  lemma DetectRepoFallback(gitStdout: string, envRepo: Option<string>)
    ensures (forall i :: 0 <= i < |gitStdout| ==> IsPySpace(gitStdout[i])) ==>
              DetectRepo(gitStdout, envRepo) == envRepo
    ensures (exists i :: 0 <= i < |gitStdout| && !IsPySpace(gitStdout[i])) ==>
              DetectRepo(gitStdout, envRepo) == RepoFromRemote(PyStrip(gitStdout), false)
  {
    TrimShape(gitStdout, IsPySpace);
  }

  /** Surrounding whitespace, such as git's trailing line feed, does not change the answer. */
  lemma DetectRepoHttps(owner: string, name: string, envRepo: Option<string>)
    requires IsOwner(owner) && IsRepoName(name)
    requires !IsPySpace(name[|name| - 1])
    ensures DetectRepo("https://github.com/" + owner + "/" + name + "\n", envRepo) == Some(owner + "/" + name)
  {
    var url := "https://github.com/" + owner + "/" + name;
    assert url[0] == 'h' && url[|url| - 1] == name[|name| - 1];
    DetectRepoLine(url, envRepo);
    HttpsRemote(owner, name, false, false);
    assert url + "" == url;
  }

  lemma DetectRepoLine(url: string, envRepo: Option<string>)
    requires url != [] && !IsPySpace(url[0]) && !IsPySpace(url[|url| - 1])
    ensures DetectRepo(url + "\n", envRepo) == RepoFromRemote(url, false)
  {
    StripTrailingNewline(url);
  }

  lemma StripTrailingNewline(url: string)
    requires url != [] && !IsPySpace(url[0]) && !IsPySpace(url[|url| - 1])
    ensures PyStrip(url + "\n") == url
  {
    var s := url + "\n";
    assert s[0] == url[0];
    assert TrimLeft(s, IsPySpace) == s;
    assert s[..|s| - 1] == url;
    assert IsPySpace(s[|s| - 1]);
    assert TrimRight(s, IsPySpace) == TrimRight(url, IsPySpace);
    assert TrimRight(url, IsPySpace) == url;
  }
}
