/**
  The values the git-hours analyzer works on: its run configuration, the
  commit records it reads from the repository, and the per-author result it
  produces. Timestamps are whole seconds since the Unix epoch.
 */
module Types {

  /** An instant, in seconds since the Unix epoch. */
  type Time = int

  /** One end of the date window. The analyzer treats the zero `time.Time`
      as "no bound"; that value is `Unbounded` here. */
  datatype Bound = Unbounded | At(instant: Time)

  /** The run configuration. `gitPath` and `branch` only select where the
      commits come from, which happens outside this model. */
  datatype Config = Config(
    maxCommitDiffInMinutes: int,
    firstCommitAdditionInMinutes: int,
    since: Bound,
    until: Bound,
    mergeRequest: bool,
    gitPath: string,
    branch: string,
    emailAliases: map<string, string>)

  /** The configuration the command line starts from before any flag is
      applied: two-hour sessions, a two-hour credit per session, no date
      window, merge commits included, no aliases. */
  const DefaultConfig := Config(120, 120, Unbounded, Unbounded, true, ".", "", map[])

  /** The fields of a commit the analyzer reads: the author's email, the
      author timestamp and the message. */
  datatype Commit = Commit(email: string, when: Time, message: string)

  /** The work attributed to one author (or to everybody, for "total"). */
  datatype AuthorWork = AuthorWork(name: string, hours: int, commits: int)

  /** The analysis result, keyed by canonical author email plus "total". */
  type Result = map<string, AuthorWork>
}
