# Timer tracker: server and client logic in Dafny

This project models the logic of a small multi-user timer service. Users sign up,
log in and start and stop named timers. Connected sockets are pushed timer
snapshots over a WebSocket.

The model covers two source files:

- `index.js`, the server. The `users` and `timers` tables are held in memory as
  sequences. The `clients` registry is a JavaScript `Map` from user id to socket.
  The model covers the account handlers (signup, login, logout) and the timer
  handlers (create, stop). It also covers what each WebSocket `connection`
  handler does to the registry and which messages it sends.
- `public/main.js`, the browser client. The model covers `formatDuration`,
  which prints elapsed milliseconds as `MM:SS` or `HH:MM:SS`, and the two
  message listeners that update the page's `oldTimers` and `activeTimers`.

Files:

- `lists.dfy`: `Option`, `Filter` (JavaScript `filter` and SQL `where`) and
  `Find` (`.first()`).
- `ordered_map.dfy`: a JavaScript `Map` with insertion order.
- `records.dfy`: table rows and push messages. The row shape follows the
  `timers` migration.
- `server.dfy`: table queries and updates, the snapshots, and the `Server`
  class, whose fields are the two tables and `clients`.
- `duration.dfy`: `formatDuration`, and a reader that parses its output back.
- `client.dfy`: the page data as the class `TimerBoard`.

The server's handlers are methods of `Server`. Each one states its new state
as a function of the old state. The handlers keep the invariant `Valid()`:
user names are unique, timer ids are unique, every stopped timer satisfies
`end = start + duration`, and the registry has at most one entry per user. The
properties are proved as lemmas about those functions.

Where the code does something unexpected, the model follows the code:

- Stopping a timer is not guarded by `isActive`. Stopping a stopped timer
  again overwrites its `duration` and `end` with the new instant
  (`StopAgainRestamps`).
- Stopping does not check who owns the timer. Any logged-in user can stop any
  timer. An unknown id updates no rows, and the reply is the count 0.
- Login writes the new token before it checks the password. A failed attempt
  therefore still logs out the user's existing session
  (`RotationRevokesOldToken`).
- Signup refuses missing credentials only when the username and the password
  are BOTH missing. One of them alone is accepted unless the name is taken.
- Nothing checks that a new timer's description is non-empty.
- The snapshots sent after a create or a stop give every row
  `progress = now - start`, stopped timers included. The snapshot sent on first
  connect has no `progress` at all.
- After a create, the handler sends to the NEW socket one snapshot per
  registered user, each filtered to that user. It does not send each user's
  snapshot to that user's own socket (`ConnectAfterCreate`). The connecting
  socket therefore receives every registered user's timers, not only its own
  user's (`CreateSnapshotsReachEveryUser`). Each such message replaces the
  page's `oldTimers`, so the page can end up showing another user's stopped
  timers.
- The close listener is attached only when `userId` is falsy. The upgrade
  handler never accepts a falsy id, so a closed socket is never removed from
  `clients` (`AcceptedSocketsStayRegistered`).

## Model

| member | source | states |
|---|---|---|
| `Lists.Find` | index.js:85-90 | `.first()`: a returned row is in the table and satisfies the condition, and nothing is returned exactly when no row satisfies it |
| `Lists.FindAtFirstIndex` | index.js:85-90 | in the model, `.first()` returns the row at the lowest index that satisfies the condition (the source leaves which row unspecified; see "## Left out") |
| `Lists.FindIsFirstMatch` | index.js:85-90 | in the model, `.first()` is the head of the filtered rows: the first match in the model's row order, not just any matching row |
| `Server.UserByToken` | index.js:94-102 | the user found for a cookie holds that cookie's token; no user is found only when there is no cookie or no user holds the token |
| `Server.UserByName` | index.js:85-90 | the user found has the given name; no user is found only when nobody has that name |
| `Server.UpgradeUser` | index.js:49-57 | the accepted id is the id of the row `UserByToken` finds for the cookie's token (in the model, the lowest-index holder), and is non-empty; the socket is refused exactly when no row holds the token (or there is no cookie) or that first holder's id is empty |
| `Server.UpgradeDecidesOnFirstHolder` | index.js:51-56 | in the model, where `.first()` is the lowest-index holder, the upgrade accepts that row's id when it is non-empty and refuses it when it is empty; only when several rows share a token does this depend on the model's choice of row |
| `Server.RotateToken` | index.js:115-118 | login changes only the token column, and only for the rows with that username, which get the new token |
| `Server.LoginCheck` | index.js:119-121 | after the rotation, the password check succeeds exactly when some user with that name has that password hash |
| `Server.RotationRevokesOldToken` | index.js:115-121 | whatever the password, a login attempt for a name makes that user's previous token authenticate nobody |
| `Server.Server.Login` | index.js:113-125 | the token is always rotated; the reply is `LoggedIn(newToken)` exactly when the name exists with that hash, otherwise wrong credentials |
| `Server.ClearToken` | index.js:131 | every user holding the token gets a null token, every other row is unchanged, and the token then authenticates nobody |
| `Server.Server.Logout` | index.js:127-133 | without a logged-in user nothing changes; otherwise the user's token is cleared and no longer authenticates |
| `Server.SignupRefusal` | index.js:138-146 | signup is refused as missing exactly when username and password are both empty, and as taken exactly when only that does not apply and the name exists |
| `Server.Server.Signup` | index.js:135-158 | a refused signup changes nothing; an accepted one appends one user with the hashed password and the new token and logs them in; names stay unique |
| `Server.SignupTokenAuthenticates` | index.js:148-157 | the new user's token authenticates exactly that user when no other user holds it |
| `Server.NewTimer` | index.js:189-195 | the inserted row has the given id and description, is running, starts now, belongs to the caller and is well formed (no end, no duration) |
| `Server.Server.CreateTimer` | index.js:186-217 | without a user, nothing is inserted and the reply is "AGA"; an id already in the table is rejected; otherwise exactly one running row owned by the caller is appended and the reply lists the rows from before the insert |
| `Server.MarkStopped` | index.js:223-231 | the first update: every row with that id stops running and gets a duration with `start + duration = now`; no other column changes, and rows with other ids are unchanged |
| `Server.FillEnd` | index.js:233-239 | the second update: every row with that id gets `end = start + duration`, or a null end when its duration is null; no other column changes, and rows with other ids are unchanged |
| `Server.StopRows` | index.js:223-239 | every row with that id becomes stopped with `duration = now - start` and `end = now`, keeping its start; every other row is unchanged |
| `Server.StopUnknownId` | index.js:223-231 | stopping an id that no row has leaves the table unchanged |
| `Server.StopKeepsInvariant` | index.js:223-239 | after a stop, every row still satisfies `end = start + duration` when stopped, and ids stay unique |
| `Server.StopAgainRestamps` | index.js:223-239 | stopping again at a later instant equals a single stop at that instant, so an already stopped timer is changed, not left alone |
| `Server.StopCount` | index.js:223-256 | the reply counts the updated rows: 1 for a stored id, 0 for an unknown one |
| `Server.CreateThenStop` | index.js:186-239 | a timer created at `s` and stopped at `e` is stored as stopped with start `s`, end `e` and duration `e - s` |
| `Server.Server.StopTimer` | index.js:219-260 | without a user nothing changes and the reply is "AGA"; otherwise the table becomes `StopRows` and the reply is the number of rows with that id |
| `Server.OwnedBy` | index.js:76 | the query returns exactly the timers whose owner is the user |
| `Server.ActiveOwnedBy` | index.js:172 | the query returns exactly the user's running timers |
| `Server.ActiveOwnedIsRunningOwned` | index.js:172 | the running-timers query equals the running part of the user's timers, with both taken in the model's row order |
| `Server.InitialSnapshot` | index.js:76-79 | the first `all_timers` message lists exactly the user's timers, none of them with a progress |
| `Server.FullSnapshot` | index.js:203-210 | the `all_timers` message sent after a create or a stop lists exactly the user's timers, each with `progress = now - start`, stopped ones included |
| `Server.ActiveSnapshot` | index.js:172-178 | an `active_timers` message lists exactly the user's running timers, each with `progress = now - start` |
| `Server.ActiveWithinFull` | index.js:172-177 | a tick's rows are exactly the running rows of the full snapshot taken at the same instant, in the model's row order |
| `Server.ProgressAdvances` | index.js:206-208 | two snapshots list the same timers, and every progress grows by exactly the time between them |
| `Server.StampProgress` | index.js:175-177 | setting `progress` in place on each fetched row gives every row `now - start` and changes nothing else |
| `Server.BuildRows` | index.js:203-208 | the fetched rows, in the model's row order, each stamped with `now - start` from one shared instant |
| `Server.SnapshotsFor` | index.js:202-211 | the loop produces one message per registry key, in key order, each the full snapshot filtered to that key's user |
| `Server.AfterClose` | index.js:70-74 | closing removes the registry entry only for the empty user id; every other entry is unchanged |
| `Server.AcceptedSocketsStayRegistered` | index.js:54-74 | closing a socket the upgrade accepted never changes the registry |
| `Server.Server.constructor` | index.js:92 | the server starts with empty tables and an empty `clients` map |
| `Server.Server.Connect` | index.js:65-80 | the socket is registered under its user, overwriting any earlier socket, and receives the initial snapshot |
| `Server.Server.Close` | index.js:70-74 | the registry becomes `AfterClose` of the old registry; the tables are unchanged |
| `Server.Server.ConnectAfterCreate` | index.js:197-212 | the socket is registered, then receives one full snapshot per registered user, in registry order, each filtered to that user |
| `Server.CreateSnapshotsReachEveryUser` | index.js:200-210 | every timer of every registered user, and of the connecting user, reaches the socket that connects after a create, stamped with its progress; the socket is not limited to its own user's timers |
| `Server.Server.ConnectAfterStop` | index.js:241-254 | the socket is registered and receives the user's full snapshot with progress |
| `Server.Server.ConnectForTicks` | index.js:166-170 | the socket is registered under its user; the tables are unchanged |
| `Server.Server.Tick` | index.js:171-178 | each tick sends the user's active snapshot at that instant |
| `OrderedMap.Keys` | index.js:202 | `clients.keys()` yields one key per entry, the i-th key being the i-th entry's key, so in insertion order |
| `OrderedMap.Set` | index.js:68 | `clients.set` maps the key to the new socket and leaves every other key unchanged; an existing key keeps its place and a new key goes last |
| `OrderedMap.Delete` | index.js:72 | `clients.delete` removes the key, keeps every other key and its value, and keeps the order of the other keys |
| `OrderedMap.SetKeepsDistinct` | index.js:68 | after a `set`, the registry still has at most one entry per user |
| `OrderedMap.DeleteKeepsDistinct` | index.js:72 | after a `delete`, the registry still has at most one entry per user |
| `Duration.ClockOf` | public/main.js:100-104 | seconds and minutes are below 60; hours is `floor(ms / 3600000)` with no upper bound; `h*3600 + m*60 + s` is the number of whole seconds |
| `Duration.Decimal` | public/main.js:107 | a number converts to a decimal numeral with no leading zero, which reads back as the number |
| `Duration.Pad` | public/main.js:107 | a field gets a leading "0" exactly when it is below 10; it is then at least two digits long, exactly two below 100, and reads back as the field |
| `Duration.PresentFields` | public/main.js:105-106 | the hours field is kept only when positive; minutes and seconds are kept even when zero |
| `Duration.Join` | public/main.js:108 | `.join(":")` starts with the first field and ends with the last, with a ":" right after the first field when there are two or more |
| `Duration.SplitJoin` | public/main.js:108 | splitting on ":" recovers the joined fields when no field contains ":" |
| `Duration.FormatDuration` | public/main.js:99-109 | the output's colon-separated fields are the padded hours (only from one hour on), then the padded minutes and seconds |
| `Duration.FormatShape` | public/main.js:105-107 | the output has 2 fields under an hour and 3 from an hour on; minutes and seconds are exactly two digits, hours at least two |
| `Duration.SameSecondSameText` | public/main.js:100 | two inputs within the same whole second give the same string |
| `Duration.FormatRoundTrip` | public/main.js:99-109 | reading the output back as `h*3600 + m*60 + s` gives exactly `floor(ms / 1000)` |
| `Client.StoppedRows` | public/main.js:132 | the filter keeps exactly the rows of stopped timers |
| `Client.StoppedRowsInOrder` | public/main.js:132 | the filter keeps the rows in message order |
| `Client.TimerBoard.constructor` | public/main.js:40-44 | the page starts with no running and no stopped timers |
| `Client.TimerBoard.OnHistoryMessage` | public/main.js:123-135 | an `all_timers` message sets `oldTimers` to exactly its stopped timers and leaves `activeTimers` alone; other messages change nothing |
| `Client.TimerBoard.OnTickMessage` | public/main.js:151-161 | an `active_timers` message replaces `activeTimers` wholesale and leaves `oldTimers` alone; other messages change nothing |

## Left out

- HTTP plumbing is not modelled: Express routing, body and cookie parsing, nunjucks rendering, redirects, static files, dotenv and `server.listen` (index.js:1-42, 104-111, 262-266). Handlers return a value naming their reply instead.
- The database is not modelled. Its tables are in-memory sequences and `knex.raw` is integer arithmetic. The `_id` serial column of the `timers` migration is not modelled, because nothing reads it.
- WebSocket mechanics are not modelled: `handleUpgrade`, `ws.send`, and actual delivery. Each `connection` handler is a separate method that returns the messages it sends.
- Listener accumulation is not modelled. The handlers for create, stop and GET `/api/timers` each attach one more `connection` listener, and every later connection runs all of them. Which listeners run on a connection, and how often, is not modelled.
- `setInterval` scheduling is not modelled: `Server.Server.Tick` models one firing.
- Concurrency is not modelled: the `await` points inside handlers and inside the `clients.keys()` loop, and interleaved requests.
- `hash` (sha256) is an abstract function parameter.
- `nanoid` values (tokens, user ids, timer ids) are parameters.
- Each timer's `start` is an integer, not nullable. Every row the server inserts has one.
- Server.FullSnapshot: all rows share one `now`. The source calls `Date.now()` once per row inside `.map`, so rows in one message may differ by a few milliseconds.
- Server.ActiveSnapshot: all rows share one `now`, as in `Server.FullSnapshot`.
- Server.StampProgress: one `now` stamps every array cell. The source calls `Date.now()` once per row at index.js:176, 207 and 250, so rows in one message can get slightly different instants.
- Server.BuildRows: every row gets the one shared `now`, as in `Server.StampProgress`, not a per-row `Date.now()`.
- Row order: no knex query has an `orderBy`. The `where` queries at index.js:76, 172, 203 and 246 and the `.first()` calls at index.js:51, 89, 99 and 138 compile to SQL whose row order PostgreSQL leaves unspecified. A stop also writes a new row version, which a later scan may return in another place. The model fixes one order: insertion order, which is kept through updates. It reads `.first()` as the lowest-index match. `Lists.FindAtFirstIndex`, `Lists.FindIsFirstMatch`, `Server.UpgradeDecidesOnFirstHolder`, `Server.BuildRows` and the order clauses of `Server.ActiveOwnedIsRunningOwned` and `Server.ActiveWithinFull` state facts about this chosen order, not guarantees of the source. Under unique user names only a token shared by several rows makes the choice of row matter.
- Server.UserByToken: a cookie header without a `token` makes the knex query throw, so the request is never answered. The model treats it as "no user".
- Server.UpgradeUser: two inputs are modelled as refused although the source never reaches `destroy`. A request with no cookie header makes `cookie.parse(undefined)` throw at index.js:50. An unknown token makes `user.id` throw at index.js:52. In both cases the socket is left neither accepted nor destroyed.
- Missing form fields (`undefined`) are modelled as empty strings. The source's behaviour for them is not captured. knex throws on an `undefined` binding, and `undefined` is also the value a missing `description` would insert into a NOT NULL column.
- In the client, these are not modelled: Vue, UIkit notifications, `fetch`, WebSocket creation, `JSON.parse` failures, and the create/stop listeners that only log.
- `formatTime` is not modelled, because it depends on the locale and the time zone.
- Duration.FormatDuration: modelled only for non-negative safe integers (below 2^53). JavaScript's `%` keeps the sign, `Number()` may give NaN, `Math.floor(d / 1000)` on a double is exact only up to 2^53, and `"" + x` prints exponent notation from 1e21 on, which `Duration.Decimal` does not model.
- `migrations/20220728170332_timers.js` is DDL only. It shapes `Records.Timer` and the unique id check in `Server.Server.CreateTimer`.
