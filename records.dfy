/** The rows of the `users` and `timers` tables, the row objects the server
    annotates before sending them, and the two push messages. */
module Records {
  import opened Lists

  type UserId = string
  type TimerId = string
  type Token = string

  /** A row of `users`. `password` holds the hash of the password;
      `token` is the session token, null once logged out. */
  datatype User = User(id: UserId, username: string, password: string, token: Option<Token>)

  /** A row of `timers`. `description` is NOT NULL; `end` and `duration` are
      nullable and stay null until the timer is stopped. `start` is nullable in
      the schema but every row the server inserts has one. */
  datatype Timer = Timer(
    id: TimerId,
    description: string,
    isActive: bool,
    start: int,
    end: Option<int>,
    duration: Option<int>,
    owner: UserId)

  /** A fetched row as it is serialised: the timer and, when the server has set
      it, its `progress` field. */
  datatype Row = Row(timer: Timer, progress: Option<int>)

  /** The two push messages: `{type: "all_timers", all_timers: [...]}` and
      `{type: "active_timers", active_timers: [...]}`. */
  datatype Message = AllTimers(rows: seq<Row>) | ActiveTimers(rows: seq<Row>)

  /** The shape every stored timer keeps: a running timer has no end and no
      duration; a stopped one has both, and its end is its start plus its duration. */
  ghost predicate WellFormed(t: Timer)
  {
    if t.isActive then t.end.None? && t.duration.None?
    else t.duration.Some? && t.end == Some(t.start + t.duration.value)
  }
}
