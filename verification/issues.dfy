/**
  The issue records the exporter reads. Each is one JSON object from the
  GitHub issues API. Every key the exporter reads with `get` may be absent,
  which is `None` here; the `name` of a label is read by indexing and is
  always present. Keys that hold JSON null are not modelled.
 */
module Issues {
  import opened Wrappers

  /** The `user` object; only `login` is read. */
  datatype User = User(login: Option<string>)

  /** One entry of `labels`; only `name` is read. */
  datatype Label = Label(name: string)

  /**
    The fields of an issue the exporter reads. An absent `labels` key reads
    as the empty list. `isPullRequest` records whether the object carries a
    `pull_request` key, which the API sets on pull requests only.
   */
  datatype Issue = Issue(
    number: Option<int>,
    title: Option<string>,
    state: Option<string>,
    user: Option<User>,
    labels: seq<Label>,
    createdAt: Option<string>,
    updatedAt: Option<string>,
    htmlUrl: Option<string>,
    body: Option<string>,
    isPullRequest: bool)

  /** `[label["name"] for label in issue.get("labels", [])]`. */
  function LabelNames(labels: seq<Label>): seq<string> {
    seq(|labels|, i requires 0 <= i < |labels| => labels[i].name)
  }

  /** `issue.get("user", {}).get("login", "unknown")`. */
  function Author(issue: Issue): string {
    match issue.user
    case None => "unknown"
    case Some(u) => u.login.GetOr("unknown")
  }
}
