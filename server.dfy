/** The decisions of the server in `index.js`: the `users` and `timers` tables
    held in memory, the `clients` registry of open sockets, the account
    handlers (signup, login, logout), the timer handlers (create, stop), and
    the snapshot messages its connection handlers send. */
module Server {
  import opened Lists
  import opened Records
  import OrderedMap

  /** An open WebSocket, known only by an opaque handle. */
  type Socket = nat

  /** The `clients` map: user id to that user's socket, in insertion order. */
  type Registry = seq<OrderedMap.Entry<UserId, Socket>>

  /** The password hash (sha256, hex encoded), left abstract. */
  type Hash = string -> string

  /** What a timer handler answers: `res.json(body)`, the literal text "AGA"
      sent to a caller who is not logged in, or a rejected insert (the unique
      index on `timers.id`) that leaves the request without an answer. */
  datatype Reply<T> = Json(body: T) | Aga | StoreError

  /** Where an account handler redirects: logged in with a new token cookie,
      or back to the page with one of its messages. */
  datatype AuthReply =
    | LoggedIn(token: Token)     // cookie `token` set, redirect to "/"
    | WrongCredentials           // "/?authError=true"
    | MissingCredentials         // "You didn't provide a username or password"
    | NameTaken                  // "This name is already taken"
    | LoggedOut                  // cookie cleared, redirect to "/"
    | NotLoggedIn                // redirect to "/" with nothing done

  // ---------------------------------------------------------------------
  // Table invariants

  ghost predicate DistinctNames(users: seq<User>)
  {
    forall i, j :: 0 <= i < j < |users| ==> users[i].username != users[j].username
  }

  ghost predicate DistinctIds(ts: seq<Timer>)
  {
    forall i, j :: 0 <= i < j < |ts| ==> ts[i].id != ts[j].id
  }

  ghost predicate AllWellFormed(ts: seq<Timer>)
  {
    forall t :: t in ts ==> WellFormed(t)
  }

  // ---------------------------------------------------------------------
  // Queries on the tables

  /** The user a session token belongs to: `auth()` and the upgrade handler
      look up the first user whose `token` column equals the cookie. A request
      without the cookie has no user. */
  function UserByToken(users: seq<User>, token: Option<Token>): (r: Option<User>)
    ensures r.Some? ==> r.value in users && token.Some? && r.value.token == token
    ensures r.None? <==> token.None? || forall u :: u in users ==> u.token != token
  {
    if token.None? then None else Find(users, HoldsToken(token))
  }

  function HoldsToken(token: Option<Token>): User -> bool { (u: User) => u.token == token }

  /** `findUserByUsername` and the signup query: the first user with that name. */
  function UserByName(users: seq<User>, name: string): (r: Option<User>)
    ensures r.Some? ==> r.value in users && r.value.username == name
    ensures r.None? <==> forall u :: u in users ==> u.username != name
  {
    Find(users, (u: User) => u.username == name)
  }

  /** Under unique names, the user found by name is the only user with that name. */
  lemma UniqueNameFound(users: seq<User>, x: User)
    requires DistinctNames(users)
    requires x in users
    ensures UserByName(users, x.username) == Some(x)
  {
    var r := UserByName(users, x.username);
    var i :| 0 <= i < |users| && users[i] == x;
    var j :| 0 <= j < |users| && users[j] == r.value;
    if i < j {
      assert users[i].username != users[j].username;
    } else if j < i {
      assert users[j].username != users[i].username;
    }
  }

  /** After the rotation, the user found by name has the expected hash exactly
      when some user of that name had it before: rotating the token does not
      change which user a login names or what it is checked against. */
  lemma LoginCheck(users: seq<User>, name: string, tok: Token, h: string)
    requires DistinctNames(users)
    ensures DistinctNames(RotateToken(users, name, tok))
    ensures (var u := UserByName(RotateToken(users, name, tok), name); u.Some? && u.value.password == h)
      <==> exists x :: x in users && x.username == name && x.password == h
  {
    var r := RotateToken(users, name, tok);
    forall i, j | 0 <= i < j < |r| ensures r[i].username != r[j].username {
      assert users[i].username != users[j].username;
    }
    if exists x :: x in users && x.username == name && x.password == h {
      var x :| x in users && x.username == name && x.password == h;
      var i :| 0 <= i < |users| && users[i] == x;
      assert r[i] in r;
      UniqueNameFound(r, r[i]);
    }
    var u := UserByName(r, name);
    if u.Some? && u.value.password == h {
      var i :| 0 <= i < |r| && r[i] == u.value;
      assert users[i] in users;
    }
  }

  function OwnerIs(u: UserId): Timer -> bool { (t: Timer) => t.owner == u }

  function ActiveOwnerIs(u: UserId): Timer -> bool { (t: Timer) => t.owner == u && t.isActive }

  function HasId(id: TimerId): Timer -> bool { (t: Timer) => t.id == id }

  predicate Running(t: Timer) { t.isActive }

  /** `where({ user_timer_id: userId })`: exactly that user's timers, in insertion order (the model's choice: the query has no `orderBy`). */
  function OwnedBy(ts: seq<Timer>, u: UserId): (r: seq<Timer>)
    ensures forall t :: t in r <==> t in ts && t.owner == u
  {
    Filter(ts, OwnerIs(u))
  }

  /** `where({ user_timer_id: userId, isActive: true })`: exactly that user's
      running timers, in insertion order. */
  function ActiveOwnedBy(ts: seq<Timer>, u: UserId): (r: seq<Timer>)
    ensures forall t :: t in r <==> t in ts && t.owner == u && t.isActive
  {
    Filter(ts, ActiveOwnerIs(u))
  }

  /** A user's running timers are the running part of that user's timers. */
  lemma ActiveOwnedIsRunningOwned(ts: seq<Timer>, u: UserId)
    ensures ActiveOwnedBy(ts, u) == Filter(OwnedBy(ts, u), Running)
  {
    FilterFilter(ts, OwnerIs(u), Running, ActiveOwnerIs(u));
  }

  /** The upgrade handler (index.js:49-57): the socket is accepted for the user
      the cookie's token names, and destroyed when that user's id is falsy.
      A token that names nobody makes `user.id` throw, so that socket is never
      accepted either. */
  function UpgradeUser(users: seq<User>, token: Option<Token>): (r: Option<UserId>)
    ensures r.Some? ==> UserByToken(users, token).Some? && r.value == UserByToken(users, token).value.id
    ensures r.None? <==> UserByToken(users, token).None? || UserByToken(users, token).value.id == ""
  {
    match UserByToken(users, token)
    case None => None
    case Some(user) => if user.id == "" then None else Some(user.id)
  }

  /** The upgrade decides on the FIRST row holding the token: its id is
      accepted when non-empty, and an empty id is refused even when a later
      row holding the same token has a non-empty id. */
  lemma UpgradeDecidesOnFirstHolder(users: seq<User>, tok: Token, i: nat)
    requires i < |users| && users[i].token == Some(tok)
    requires forall j :: 0 <= j < i ==> users[j].token != Some(tok)
    ensures UpgradeUser(users, Some(tok)) == if users[i].id == "" then None else Some(users[i].id)
  {
    FindAtFirstIndex(users, HoldsToken(Some(tok)), i);
  }

  // ---------------------------------------------------------------------
  // Account table updates

  /** The login update: every user with that name gets the new token. */
  function RotateToken(users: seq<User>, name: string, tok: Token): (r: seq<User>)
    ensures |r| == |users|
    ensures forall i :: 0 <= i < |users| ==>
      r[i].id == users[i].id && r[i].username == users[i].username && r[i].password == users[i].password
    ensures forall i :: 0 <= i < |users| ==>
      r[i].token == if users[i].username == name then Some(tok) else users[i].token
  {
    seq(|users|, i requires 0 <= i < |users| =>
      if users[i].username == name then users[i].(token := Some(tok)) else users[i])
  }

  /** A login attempt revokes the user's previous session whether or not the
      password was right: once the token is rotated, the old token names nobody. */
  lemma RotationRevokesOldToken(users: seq<User>, name: string, tok: Token, previous: Token)
    requires tok != previous
    requires forall u :: u in users && u.token == Some(previous) ==> u.username == name
    ensures UserByToken(RotateToken(users, name, tok), Some(previous)) == None
  {
    var r := RotateToken(users, name, tok);
    forall v | v in r ensures v.token != Some(previous) {
      var i :| 0 <= i < |r| && r[i] == v;
      assert users[i] in users;
    }
  }

  /** The logout update: every user holding that token loses it. */
  function ClearToken(users: seq<User>, tok: Token): (r: seq<User>)
    ensures |r| == |users|
    ensures forall i :: 0 <= i < |users| ==>
      r[i] == if users[i].token == Some(tok) then users[i].(token := None) else users[i]
    ensures UserByToken(r, Some(tok)) == None
  {
    var r := seq(|users|, i requires 0 <= i < |users| =>
      if users[i].token == Some(tok) then users[i].(token := None) else users[i]);
    assert forall v :: v in r ==> v.token != Some(tok);
    r
  }

  /** Why signup is refused, if it is: both fields missing, or the name taken.
      Only BOTH fields missing is refused; one of them alone goes through. */
  function SignupRefusal(users: seq<User>, username: string, password: string): (r: Option<AuthReply>)
    ensures r == Some(MissingCredentials) <==> username == "" && password == ""
    ensures r == Some(NameTaken) <==>
      (username != "" || password != "") && exists u :: u in users && u.username == username
    ensures r == None || r == Some(MissingCredentials) || r == Some(NameTaken)
  {
    var nameTaken := UserByName(users, username);
    if username == "" && password == "" then Some(MissingCredentials)
    else if nameTaken.None? then None
    else if username == nameTaken.value.username then Some(NameTaken)
    else None
  }

  /** The token a signup hands out logs the new user in, as long as no other
      user already holds it. */
  lemma SignupTokenAuthenticates(users: seq<User>, newUser: User)
    requires newUser.token.Some?
    requires forall u :: u in users ==> u.token != newUser.token
    ensures UserByToken(users + [newUser], newUser.token) == Some(newUser)
  {
  }

  // ---------------------------------------------------------------------
  // Timer table updates

  /** The row `createTimer` inserts. */
  function NewTimer(id: TimerId, description: string, now: int, owner: UserId): (t: Timer)
    ensures t.isActive && t.start == now && t.owner == owner && t.id == id
    ensures t.description == description
    ensures WellFormed(t)
  {
    Timer(id, description, true, now, None, None, owner)
  }

  /** The first update of the stop handler (index.js:223-231). */
  function MarkStopped(ts: seq<Timer>, id: TimerId, now: int): (r: seq<Timer>)
    ensures |r| == |ts|
    ensures forall i :: 0 <= i < |ts| && ts[i].id == id ==>
      !r[i].isActive && r[i].duration.Some? && r[i].start + r[i].duration.value == now
    ensures forall i :: 0 <= i < |ts| ==>
      r[i].(isActive := ts[i].isActive, duration := ts[i].duration) == ts[i]
    ensures forall i :: 0 <= i < |ts| && ts[i].id != id ==> r[i] == ts[i]
  {
    seq(|ts|, i requires 0 <= i < |ts| =>
      if ts[i].id == id then ts[i].(isActive := false, duration := Some(now - ts[i].start)) else ts[i])
  }

  /** The second update (index.js:233-239): `end = start + duration`, where SQL
      arithmetic on a null duration gives null. */
  function FillEnd(ts: seq<Timer>, id: TimerId): (r: seq<Timer>)
    ensures |r| == |ts|
    ensures forall i :: 0 <= i < |ts| && ts[i].id == id && ts[i].duration.Some? ==>
      r[i].end == Some(ts[i].start + ts[i].duration.value)
    ensures forall i :: 0 <= i < |ts| && ts[i].id == id && ts[i].duration.None? ==> r[i].end.None?
    ensures forall i :: 0 <= i < |ts| ==> r[i].(end := ts[i].end) == ts[i]
    ensures forall i :: 0 <= i < |ts| && ts[i].id != id ==> r[i] == ts[i]
  {
    seq(|ts|, i requires 0 <= i < |ts| =>
      if ts[i].id == id then
        ts[i].(end := if ts[i].duration.Some? then Some(ts[i].start + ts[i].duration.value) else None)
      else ts[i])
  }

  /** Both updates of the stop handler. Every row with that id, running or
      not, becomes stopped with `duration = now - start` and `end = now`;
      every other row is untouched. */
  function StopRows(ts: seq<Timer>, id: TimerId, now: int): (r: seq<Timer>)
    ensures |r| == |ts|
    ensures forall i :: 0 <= i < |ts| ==>
      r[i] == if ts[i].id == id
              then ts[i].(isActive := false, duration := Some(now - ts[i].start), end := Some(now))
              else ts[i]
  {
    FillEnd(MarkStopped(ts, id, now), id)
  }

  /** Stopping an id no row has changes nothing. */
  lemma StopUnknownId(ts: seq<Timer>, id: TimerId, now: int)
    requires forall t :: t in ts ==> t.id != id
    ensures StopRows(ts, id, now) == ts
  {
    var r := StopRows(ts, id, now);
    forall i | 0 <= i < |ts| ensures r[i] == ts[i] {
      assert ts[i] in ts;
    }
  }

  /** Stopping keeps every timer well formed, keeps every id, and so keeps ids unique. */
  lemma StopKeepsInvariant(ts: seq<Timer>, id: TimerId, now: int)
    requires AllWellFormed(ts) && DistinctIds(ts)
    ensures AllWellFormed(StopRows(ts, id, now)) && DistinctIds(StopRows(ts, id, now))
  {
    var r := StopRows(ts, id, now);
    forall t | t in r ensures WellFormed(t) {
      var i :| 0 <= i < |r| && r[i] == t;
      assert ts[i] in ts;
    }
  }

  /** Stopping is not guarded by `isActive`: stopping an already stopped timer
      again overwrites its duration and end with the new instant. */
  lemma {:induction false} StopAgainRestamps(ts: seq<Timer>, id: TimerId, first: int, second: int)
    ensures StopRows(StopRows(ts, id, first), id, second) == StopRows(ts, id, second)
    ensures first != second && (exists t :: t in ts && t.id == id) ==>
      StopRows(StopRows(ts, id, first), id, second) != StopRows(ts, id, first)
  {
    var a := StopRows(ts, id, first);
    var b := StopRows(a, id, second);
    var c := StopRows(ts, id, second);
    assert |b| == |c|;
    forall i | 0 <= i < |ts| ensures b[i] == c[i] {
    }
    if first != second && exists t :: t in ts && t.id == id {
      var t :| t in ts && t.id == id;
      var i :| 0 <= i < |ts| && ts[i] == t;
      assert b[i].end == Some(second) != Some(first) == a[i].end;
    }
  }

  /** The stop handler answers with the number of rows it updated: with unique
      ids that is one for a stored id and zero for an unknown one. */
  lemma {:induction false} StopCount(ts: seq<Timer>, id: TimerId)
    requires DistinctIds(ts)
    ensures |Filter(ts, HasId(id))| == if exists t :: t in ts && t.id == id then 1 else 0
  {
    if ts != [] {
      var rest := ts[1..];
      assert DistinctIds(rest) by {
        forall i, j | 0 <= i < j < |rest| ensures rest[i].id != rest[j].id {
          assert ts[i + 1].id != ts[j + 1].id;
        }
      }
      StopCount(rest, id);
      if ts[0].id == id {
        assert forall t :: t in rest ==> t.id != id by {
          forall t | t in rest ensures t.id != id {
            var k :| 0 <= k < |rest| && rest[k] == t;
            assert ts[0].id != ts[k + 1].id;
          }
        }
      } else {
        assert (exists t :: t in ts && t.id == id) == (exists t :: t in rest && t.id == id) by {
          if exists t :: t in ts && t.id == id {
            var t :| t in ts && t.id == id;
            var k :| 0 <= k < |ts| && ts[k] == t;
            assert rest[k - 1] == t;
          }
        }
      }
    }
  }

  /** Creating a timer and stopping it later leaves a stopped row with
      `start`, `end = start + duration` and `duration = stop instant - start`. */
  lemma CreateThenStop(ts: seq<Timer>, id: TimerId, description: string, started: int, stopped: int, owner: UserId)
    requires forall t :: t in ts ==> t.id != id
    ensures StopRows(ts + [NewTimer(id, description, started, owner)], id, stopped)
      == ts + [Timer(id, description, false, started, Some(stopped), Some(stopped - started), owner)]
  {
    var s := ts + [NewTimer(id, description, started, owner)];
    var r := StopRows(s, id, stopped);
    forall i | 0 <= i < |ts| ensures r[i] == ts[i] {
      assert ts[i] in ts;
    }
  }

  // ---------------------------------------------------------------------
  // Snapshots

  /** Fetched rows, before the server sets any `progress`. */
  function Plain(ts: seq<Timer>): seq<Row>
  {
    seq(|ts|, i requires 0 <= i < |ts| => Row(ts[i], None))
  }

  /** The rows after `timer.progress = Date.now() - timer.start` ran on each. */
  function Stamped(rows: seq<Row>, now: int): seq<Row>
  {
    seq(|rows|, i requires 0 <= i < |rows| => rows[i].(progress := Some(now - rows[i].timer.start)))
  }

  lemma PlainMembers(ts: seq<Timer>)
    ensures forall r :: r in Plain(ts) <==> r.timer in ts && r.progress == None
  {
    forall r: Row | r.timer in ts && r.progress == None ensures r in Plain(ts) {
      var i :| 0 <= i < |ts| && ts[i] == r.timer;
      assert Plain(ts)[i] == r;
    }
  }

  lemma StampedMembers(ts: seq<Timer>, now: int)
    ensures forall r :: r in Stamped(Plain(ts), now) <==> r.timer in ts && r.progress == Some(now - r.timer.start)
  {
    var s := Stamped(Plain(ts), now);
    forall r: Row | r.timer in ts && r.progress == Some(now - r.timer.start) ensures r in s {
      var i :| 0 <= i < |ts| && ts[i] == r.timer;
      assert s[i] == r;
    }
  }

  /** The message the first connection handler sends (index.js:76-79): every
      timer of the user, and no `progress` on any of them. */
  function InitialSnapshot(ts: seq<Timer>, u: UserId): (m: Message)
    ensures m.AllTimers?
    ensures forall r :: r in m.rows <==> r.timer in ts && r.timer.owner == u && r.progress == None
  {
    PlainMembers(OwnedBy(ts, u));
    AllTimers(Plain(OwnedBy(ts, u)))
  }

  /** The message sent after a create or a stop (index.js:203-210, 246-253):
      every timer of the user, each with `progress = now - start`, stopped
      ones included. */
  function FullSnapshot(ts: seq<Timer>, u: UserId, now: int): (m: Message)
    ensures m.AllTimers?
    ensures forall r :: r in m.rows <==> r.timer in ts && r.timer.owner == u && r.progress == Some(now - r.timer.start)
  {
    StampedMembers(OwnedBy(ts, u), now);
    AllTimers(Stamped(Plain(OwnedBy(ts, u)), now))
  }

  /** The message of each periodic tick (index.js:172-178): the user's running
      timers only, each with `progress = now - start`. */
  function ActiveSnapshot(ts: seq<Timer>, u: UserId, now: int): (m: Message)
    ensures m.ActiveTimers?
    ensures forall r :: r in m.rows <==>
      r.timer in ts && r.timer.owner == u && r.timer.isActive && r.progress == Some(now - r.timer.start)
  {
    StampedMembers(ActiveOwnedBy(ts, u), now);
    ActiveTimers(Stamped(Plain(ActiveOwnedBy(ts, u)), now))
  }

  predicate RowRunning(r: Row) { r.timer.isActive }

  lemma StampedPlainAppend(a: seq<Timer>, b: seq<Timer>, now: int)
    ensures Stamped(Plain(a + b), now) == Stamped(Plain(a), now) + Stamped(Plain(b), now)
  {
  }

  lemma StampedPlainSingle(t: Timer, now: int)
    ensures Filter(Stamped(Plain([t]), now), RowRunning) == Stamped(Plain(Filter([t], Running)), now)
  {
    var s := Stamped(Plain([t]), now);
    assert s == [Row(t, Some(now - t.start))];
    assert s[1..] == [];
    assert [t][1..] == [];
  }

  /** Stamping progress commutes with keeping the running rows. */
  lemma {:induction false} StampedPlainFilter(ts: seq<Timer>, now: int)
    ensures Filter(Stamped(Plain(ts), now), RowRunning) == Stamped(Plain(Filter(ts, Running)), now)
  {
    if ts != [] {
      var x, rest := ts[0], ts[1..];
      assert ts == [x] + rest;
      StampedPlainAppend([x], rest, now);
      FilterAppend(Stamped(Plain([x]), now), Stamped(Plain(rest), now), RowRunning);
      StampedPlainFilter(rest, now);
      StampedPlainSingle(x, now);
      FilterAppend([x], rest, Running);
      StampedPlainAppend(Filter([x], Running), Filter(rest, Running), now);
    }
  }

  /** A tick's rows are exactly the running rows of the full snapshot at the
      same instant, in the same order. */
  lemma ActiveWithinFull(ts: seq<Timer>, u: UserId, now: int)
    ensures ActiveSnapshot(ts, u, now).rows == Filter(FullSnapshot(ts, u, now).rows, RowRunning)
  {
    ActiveOwnedIsRunningOwned(ts, u);
    StampedPlainFilter(OwnedBy(ts, u), now);
  }

  /** Two snapshots of the same table list the same timers, and every
      progress grows by exactly the time between them. */
  lemma ProgressAdvances(ts: seq<Timer>, u: UserId, t1: int, t2: int)
    ensures |FullSnapshot(ts, u, t1).rows| == |FullSnapshot(ts, u, t2).rows|
    ensures forall i :: 0 <= i < |FullSnapshot(ts, u, t1).rows| ==>
      FullSnapshot(ts, u, t1).rows[i].timer == FullSnapshot(ts, u, t2).rows[i].timer &&
      FullSnapshot(ts, u, t2).rows[i].progress.value - FullSnapshot(ts, u, t1).rows[i].progress.value == t2 - t1
  {
  }

  /** `.map((timer) => { timer.progress = Date.now() - timer.start; })` over
      freshly fetched row objects. */
  method StampProgress(a: array<Row>, now: int)
    modifies a
    ensures a[..] == Stamped(old(a[..]), now)
  {
    for i := 0 to a.Length
      invariant forall j :: 0 <= j < i ==> a[j] == old(a[j]).(progress := Some(now - old(a[j]).timer.start))
      invariant forall j :: i <= j < a.Length ==> a[j] == old(a[j])
    {
      a[i] := a[i].(progress := Some(now - a[i].timer.start));
    }
  }

  /** Fetches `ts` as row objects and stamps each with its progress. */
  method BuildRows(ts: seq<Timer>, now: int) returns (rows: seq<Row>)
    ensures rows == Stamped(Plain(ts), now)
  {
    var a := new Row[|ts|](i requires 0 <= i < |ts| => Row(ts[i], None));
    assert a[..] == Plain(ts);
    StampProgress(a, now);
    rows := a[..];
  }

  /** The loop of index.js:202-211: one full snapshot per registered key, in the
      registry's order, each filtered to that key's user. */
  method SnapshotsFor(keys: seq<UserId>, ts: seq<Timer>, now: int) returns (sent: seq<Message>)
    ensures |sent| == |keys|
    ensures forall i :: 0 <= i < |keys| ==> sent[i] == FullSnapshot(ts, keys[i], now)
  {
    sent := [];
    for i := 0 to |keys|
      invariant |sent| == i
      invariant forall j :: 0 <= j < i ==> sent[j] == FullSnapshot(ts, keys[j], now)
    {
      var rows := BuildRows(OwnedBy(ts, keys[i]), now);
      sent := sent + [AllTimers(rows)];
    }
  }

  // ---------------------------------------------------------------------
  // The registry's close handler

  /** A user's full snapshot carries each of that user's timers. */
  lemma SnapshotHasRow(timers: seq<Timer>, t: Timer, now: int)
    requires t in timers
    ensures Row(t, Some(now - t.start)) in FullSnapshot(timers, t.owner, now).rows
  {
  }

  /** What a socket connecting after a create is sent (see
      `Server.ConnectAfterCreate`) is not limited to its own user: every timer
      of every registered user, the connecting one included, reaches it inside
      one of the per-key snapshots. */
  lemma CreateSnapshotsReachEveryUser(clients: Registry, timers: seq<Timer>, userId: UserId, ws: Socket,
                                      now: int, sent: seq<Message>, t: Timer)
    requires |sent| == |OrderedMap.Keys(OrderedMap.Set(clients, userId, ws))|
    requires forall i :: 0 <= i < |sent| ==>
      sent[i] == FullSnapshot(timers, OrderedMap.Keys(OrderedMap.Set(clients, userId, ws))[i], now)
    requires t in timers && t.owner in OrderedMap.Keys(clients) + [userId]
    ensures exists i :: 0 <= i < |sent| && Row(t, Some(now - t.start)) in sent[i].rows
  {
    var ks := OrderedMap.Keys(OrderedMap.Set(clients, userId, ws));
    OrderedMap.SetHasKey(clients, userId, ws, t.owner);
    var i :| 0 <= i < |ks| && ks[i] == t.owner;
    SnapshotHasRow(timers, t, now);
  }

  /** The close listener (index.js:70-74) is attached only when `userId` is falsy,
      so closing a socket removes its entry only for the empty id. */
  function AfterClose(m: Registry, userId: UserId): (r: Registry)
    ensures OrderedMap.Get(r, userId) == if userId == "" then None else OrderedMap.Get(m, userId)
    ensures forall k :: k != userId ==> OrderedMap.Get(r, k) == OrderedMap.Get(m, k)
  {
    if userId == "" then OrderedMap.Delete(m, userId) else m
  }

  /** Every socket the upgrade handler accepts has a non-empty id, so closing
      it never removes its registry entry. */
  lemma AcceptedSocketsStayRegistered(users: seq<User>, token: Option<Token>, m: Registry)
    requires UpgradeUser(users, token).Some?
    ensures AfterClose(m, UpgradeUser(users, token).value) == m
  {
  }

  // ---------------------------------------------------------------------
  // The server's state and handlers

  class Server {
    var users: seq<User>
    var timers: seq<Timer>
    var clients: Registry

    ghost predicate Valid()
      reads this
    {
      && DistinctNames(users)
      && DistinctIds(timers)
      && AllWellFormed(timers)
      && OrderedMap.Distinct(OrderedMap.Keys(clients))
    }

    constructor ()
      ensures Valid()
      ensures users == [] && timers == [] && clients == []
    {
      users, timers, clients := [], [], [];
    }

    /** POST /login (index.js:113-125): the token is rotated before the password
        is checked, so a failed attempt still replaces it. */
    method Login(username: string, password: string, hash: Hash, freshToken: Token) returns (r: AuthReply)
      requires Valid()
      modifies this
      ensures Valid()
      ensures users == RotateToken(old(users), username, freshToken)
      ensures timers == old(timers) && clients == old(clients)
      ensures r == LoggedIn(freshToken) || r == WrongCredentials
      ensures r.LoggedIn? <==> exists u :: u in old(users) && u.username == username && u.password == hash(password)
    {
      LoginCheck(users, username, freshToken, hash(password));
      users := RotateToken(users, username, freshToken);
      var user := UserByName(users, username);
      if user.None? || user.value.password != hash(password) {
        return WrongCredentials;
      }
      r := LoggedIn(freshToken);
    }

    /** GET /logout (index.js:127-133): every user holding the caller's token loses it. */
    method Logout(token: Option<Token>) returns (r: AuthReply)
      requires Valid()
      modifies this
      ensures Valid()
      ensures timers == old(timers) && clients == old(clients)
      ensures UserByToken(old(users), token).None? ==> r == NotLoggedIn && users == old(users)
      ensures UserByToken(old(users), token).Some? ==>
        r == LoggedOut && users == ClearToken(old(users), token.value) && UserByToken(users, token) == None
    {
      var user := UserByToken(users, token);
      if user.None? {
        return NotLoggedIn;
      }
      ghost var before := users;
      users := ClearToken(users, user.value.token.value);
      assert DistinctNames(users) by {
        forall i, j | 0 <= i < j < |users| ensures users[i].username != users[j].username {
          assert before[i].username != before[j].username;
        }
      }
      r := LoggedOut;
    }

    /** POST /signup (index.js:135-158): refused when both fields are missing or
        the name is taken; otherwise a new user with the hashed password and a
        new token. */
    method Signup(username: string, password: string, hash: Hash, freshToken: Token, freshId: UserId)
      returns (r: AuthReply)
      requires Valid()
      modifies this
      ensures Valid()
      ensures timers == old(timers) && clients == old(clients)
      ensures SignupRefusal(old(users), username, password).Some? ==>
        r == SignupRefusal(old(users), username, password).value && users == old(users)
      ensures SignupRefusal(old(users), username, password).None? ==>
        r == LoggedIn(freshToken) &&
        users == old(users) + [User(freshId, username, hash(password), Some(freshToken))]
    {
      var refusal := SignupRefusal(users, username, password);
      if refusal.Some? {
        return refusal.value;
      }
      ghost var before := users;
      users := users + [User(freshId, username, hash(password), Some(freshToken))];
      assert DistinctNames(users) by {
        forall i, j | 0 <= i < j < |users| ensures users[i].username != users[j].username {
          if j == |before| {
            assert before[i] in before;
          } else {
            assert before[i].username != before[j].username;
          }
        }
      }
      r := LoggedIn(freshToken);
    }

    /** POST /api/timers (index.js:186-217): for a logged-in caller, inserts a
        running timer started now and owned by the caller, and answers with
        the rows the table held before the insert. */
    method CreateTimer(token: Option<Token>, description: string, id: TimerId, now: int)
      returns (r: Reply<seq<Timer>>)
      requires Valid()
      modifies this
      ensures Valid()
      ensures users == old(users) && clients == old(clients)
      ensures UserByToken(old(users), token).None? ==> r == Aga && timers == old(timers)
      ensures UserByToken(old(users), token).Some? && (exists t :: t in old(timers) && t.id == id) ==>
        r == StoreError && timers == old(timers)
      ensures UserByToken(old(users), token).Some? && (forall t :: t in old(timers) ==> t.id != id) ==>
        r == Json(old(timers)) &&
        timers == old(timers) + [NewTimer(id, description, now, UserByToken(old(users), token).value.id)]
    {
      var user := UserByToken(users, token);
      if user.None? {
        return Aga;
      }
      var listing := timers;
      if Find(timers, HasId(id)).Some? {
        return StoreError;
      }
      ghost var before := timers;
      timers := timers + [NewTimer(id, description, now, user.value.id)];
      assert DistinctIds(timers) by {
        forall i, j | 0 <= i < j < |timers| ensures timers[i].id != timers[j].id {
          if j == |before| {
            assert before[i] in before;
          } else {
            assert before[i].id != before[j].id;
          }
        }
      }
      r := Json(listing);
    }

    /** POST /api/timers/:id/stop (index.js:219-260): any logged-in caller may stop
        any timer; the answer is the number of rows updated. */
    method StopTimer(token: Option<Token>, id: TimerId, now: int) returns (r: Reply<nat>)
      requires Valid()
      modifies this
      ensures Valid()
      ensures users == old(users) && clients == old(clients)
      ensures UserByToken(old(users), token).None? ==> r == Aga && timers == old(timers)
      ensures UserByToken(old(users), token).Some? ==>
        r == Json(|Filter(old(timers), HasId(id))|) && timers == StopRows(old(timers), id, now)
    {
      var user := UserByToken(users, token);
      if user.None? {
        return Aga;
      }
      var count := |Filter(timers, HasId(id))|;
      StopKeepsInvariant(timers, id, now);
      timers := StopRows(timers, id, now);
      r := Json(count);
    }

    /** The connection handler of the upgrade (index.js:65-80): registers the
        socket and sends the user's timers as stored. */
    method Connect(userId: UserId, ws: Socket) returns (msg: Message)
      requires Valid()
      modifies this
      ensures Valid()
      ensures users == old(users) && timers == old(timers)
      ensures clients == OrderedMap.Set(old(clients), userId, ws)
      ensures msg == InitialSnapshot(timers, userId)
    {
      OrderedMap.SetKeepsDistinct(clients, userId, ws);
      clients := OrderedMap.Set(clients, userId, ws);
      msg := InitialSnapshot(timers, userId);
    }

    /** A socket closes (index.js:70-74). */
    method Close(userId: UserId)
      requires Valid()
      modifies this
      ensures Valid()
      ensures users == old(users) && timers == old(timers)
      ensures clients == AfterClose(old(clients), userId)
    {
      if userId == "" {
        OrderedMap.DeleteKeepsDistinct(clients, userId);
      }
      clients := AfterClose(clients, userId);
    }

    /** The connection handler attached by a create (index.js:197-212): registers
        the socket, then sends to that socket one full snapshot per registered
        user, each filtered to that user. */
    method ConnectAfterCreate(userId: UserId, ws: Socket, now: int) returns (sent: seq<Message>)
      requires Valid()
      modifies this
      ensures Valid()
      ensures users == old(users) && timers == old(timers)
      ensures clients == OrderedMap.Set(old(clients), userId, ws)
      ensures |sent| == |OrderedMap.Keys(clients)|
      ensures forall i :: 0 <= i < |sent| ==> sent[i] == FullSnapshot(timers, OrderedMap.Keys(clients)[i], now)
    {
      OrderedMap.SetKeepsDistinct(clients, userId, ws);
      clients := OrderedMap.Set(clients, userId, ws);
      sent := SnapshotsFor(OrderedMap.Keys(clients), timers, now);
    }

    /** The connection handler attached by a stop (index.js:241-254): registers
        the socket and sends it the user's timers with progress. */
    method ConnectAfterStop(userId: UserId, ws: Socket, now: int) returns (msg: Message)
      requires Valid()
      modifies this
      ensures Valid()
      ensures users == old(users) && timers == old(timers)
      ensures clients == OrderedMap.Set(old(clients), userId, ws)
      ensures msg == FullSnapshot(timers, userId, now)
    {
      OrderedMap.SetKeepsDistinct(clients, userId, ws);
      clients := OrderedMap.Set(clients, userId, ws);
      var rows := BuildRows(OwnedBy(timers, userId), now);
      msg := AllTimers(rows);
    }

    /** The connection handler attached by GET /api/timers (index.js:166-170):
        registers the socket, which then receives `Tick` every second. */
    method ConnectForTicks(userId: UserId, ws: Socket)
      requires Valid()
      modifies this
      ensures Valid()
      ensures users == old(users) && timers == old(timers)
      ensures clients == OrderedMap.Set(old(clients), userId, ws)
    {
      OrderedMap.SetKeepsDistinct(clients, userId, ws);
      clients := OrderedMap.Set(clients, userId, ws);
    }

    /** One tick of the interval (index.js:171-178). */
    method Tick(userId: UserId, now: int) returns (msg: Message)
      ensures msg == ActiveSnapshot(timers, userId, now)
    {
      var rows := BuildRows(ActiveOwnedBy(timers, userId), now);
      msg := ActiveTimers(rows);
    }
  }
}
