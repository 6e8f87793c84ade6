/** Administrator sessions with a sliding idle deadline capped by an absolute one
    (`app/services/session_service.py`, `app/repositories/session_repository.py`).
    Times and durations are integers in one unit; a token stands for its stored hash. */
module Sessions {
  import opened Prelude

  type Token = string

  /** Bounds are those enforced by the application settings. */
  datatype Config = Config(idle: nat, absolute: nat, touch: nat) {
    predicate Valid() {
      0 < idle < absolute && touch < idle
    }
  }

  datatype Record = Record(user: nat, createdAt: int, lastActivityAt: int, expiresAt: int,
                           absoluteExpiresAt: int, revokedAt: Option<int>)

  /** The sessions table and the users that are active. */
  datatype Table = Table(records: map<Token, Record>, activeUsers: set<nat>)

  // ---- What each operation does to the table ----

  function NewRecord(config: Config, user: nat, now: int): Record {
    Record(user, now, now, Min(now + config.idle, now + config.absolute), now + config.absolute, None)
  }

  predicate Expired(record: Record, now: int) {
    record.expiresAt <= now || record.absoluteExpiresAt <= now
  }

  predicate Accepts(table: Table, token: Token, now: int) {
    && token in table.records
    && table.records[token].revokedAt == None
    && !Expired(table.records[token], now)
    && table.records[token].user in table.activeUsers
  }

  function Touched(config: Config, record: Record, now: int): Record {
    if now - record.lastActivityAt >= config.touch then
      record.(lastActivityAt := now, expiresAt := Min(now + config.idle, record.absoluteExpiresAt))
    else record
  }

  function AfterAuthenticate(config: Config, table: Table, token: Token, now: int): Table {
    if Accepts(table, token, now) then
      table.(records := table.records[token := Touched(config, table.records[token], now)])
    else table
  }

  /** The token column is unique: a token already in use is refused and nothing changes. */
  function AfterCreate(config: Config, table: Table, token: Token, user: nat, now: int): Table {
    if token in table.records then table
    else table.(records := table.records[token := NewRecord(config, user, now)])
  }

  predicate Revocable(table: Table, token: Token) {
    token in table.records && table.records[token].revokedAt == None
  }

  function AfterRevoke(table: Table, token: Token, now: int): Table {
    if Revocable(table, token) then
      table.(records := table.records[token := table.records[token].(revokedAt := Some(now))])
    else table
  }

  predicate SelectedForRevocation(record: Record, token: Token, user: nat, exempt: Option<Token>) {
    record.user == user && record.revokedAt == None && Some(token) != exempt
  }

  function AfterRevokeAll(table: Table, user: nat, exempt: Option<Token>, now: int): Table {
    table.(records := map t | t in table.records ::
      if SelectedForRevocation(table.records[t], t, user, exempt)
      then table.records[t].(revokedAt := Some(now)) else table.records[t])
  }

  function AfterCleanup(table: Table, now: int): Table {
    table.(records := map t | t in table.records && !Expired(table.records[t], now) :: table.records[t])
  }

  // ---- The service ----

  class SessionService {
    const config: Config
    var records: map<Token, Record>
    var activeUsers: set<nat>

    constructor (config: Config)
      ensures this.config == config && State() == Table(map[], {})
    {
      this.config := config;
      records, activeUsers := map[], {};
    }

    function State(): Table
      reads this
    {
      Table(records, activeUsers)
    }

    method CreateRecord(token: Token, user: nat, now: int) returns (created: bool)
      modifies this`records
      ensures created == (token !in old(records))
      ensures State() == AfterCreate(config, old(State()), token, user, now)
    {
      if token in records {
        return false;
      }
      var absoluteExpiresAt := now + config.absolute;
      var expiresAt := Min(now + config.idle, absoluteExpiresAt);
      records := records[token := Record(user, now, now, expiresAt, absoluteExpiresAt, None)];
      created := true;
    }

    method Authenticate(token: Token, now: int) returns (accepted: bool)
      modifies this`records
      ensures accepted == Accepts(old(State()), token, now)
      ensures State() == AfterAuthenticate(config, old(State()), token, now)
    {
      if token !in records || records[token].revokedAt != None {
        return false;
      }
      var record := records[token];
      if record.expiresAt <= now || record.absoluteExpiresAt <= now {
        return false;
      }
      if record.user !in activeUsers {
        return false;
      }
      if now - record.lastActivityAt >= config.touch {
        record := record.(lastActivityAt := now);
        record := record.(expiresAt := Min(now + config.idle, record.absoluteExpiresAt));
      }
      records := records[token := record];
      accepted := true;
    }

    method Revoke(token: Token, now: int) returns (revoked: bool)
      modifies this`records
      ensures revoked == Revocable(old(State()), token)
      ensures State() == AfterRevoke(old(State()), token, now)
    {
      if token !in records || records[token].revokedAt != None {
        return false;
      }
      records := records[token := records[token].(revokedAt := Some(now))];
      revoked := true;
    }

    /** One bulk update; the result is the number of rows it changed. */
    method RevokeAllForUser(user: nat, exempt: Option<Token>, now: int) returns (count: nat)
      modifies this`records
      ensures State() == AfterRevokeAll(old(State()), user, exempt, now)
      ensures count == |set t | t in records && records[t] != old(records)[t]|
    {
      var selected := set t | t in records && SelectedForRevocation(records[t], t, user, exempt);
      ghost var before := records;
      records := map t | t in records ::
        if t in selected then records[t].(revokedAt := Some(now)) else records[t];
      count := |selected|;
      assert selected == set t | t in records && records[t] != before[t];
    }

    method CleanupExpired(now: int) returns (count: nat)
      modifies this`records
      ensures State() == AfterCleanup(old(State()), now)
      ensures count == |old(records).Keys - records.Keys|
    {
      var expired := set t | t in records && Expired(records[t], now);
      ghost var before := records;
      records := records - expired;
      count := |expired|;
      assert expired == before.Keys - records.Keys;
    }
  }

  // ---- Runs ----

  datatype Event =
    | Create(token: Token, user: nat)
    | Authenticate(token: Token)
    | Revoke(token: Token)
    | RevokeAll(user: nat, exempt: Option<Token>)
    | Cleanup
    | SetActive(user: nat, active: bool)

  datatype Timed = At(now: int, event: Event)

  function Step(config: Config, table: Table, at: Timed): Table {
    match at.event
    case Create(token, user) => AfterCreate(config, table, token, user, at.now)
    case Authenticate(token) => AfterAuthenticate(config, table, token, at.now)
    case Revoke(token) => AfterRevoke(table, token, at.now)
    case RevokeAll(user, exempt) => AfterRevokeAll(table, user, exempt, at.now)
    case Cleanup => AfterCleanup(table, at.now)
    case SetActive(user, active) =>
      table.(activeUsers := if active then table.activeUsers + {user} else table.activeUsers - {user})
  }

  function Run(config: Config, table: Table, run: seq<Timed>): Table
    decreases run
  {
    if run == [] then table else Run(config, Step(config, table, run[0]), run[1..])
  }

  predicate Answer(table: Table, at: Timed) {
    at.event.Authenticate? && Accepts(table, at.event.token, at.now)
  }

  /** For each event of the run, whether it is an accepted request. */
  function Answers(config: Config, table: Table, run: seq<Timed>): (answers: seq<bool>)
    ensures |answers| == |run|
    decreases run
  {
    if run == [] then []
    else [Answer(table, run[0])] + Answers(config, Step(config, table, run[0]), run[1..])
  }

  /** The clock never goes back, and starts no earlier than `since`. */
  ghost predicate Chronological(run: seq<Timed>, since: int) {
    run != [] ==> since <= run[0].now && Chronological(run[1..], run[0].now)
  }

  // ---- The sliding deadline ----

  ghost predicate Slides(config: Config, record: Record) {
    && record.absoluteExpiresAt == record.createdAt + config.absolute
    && record.expiresAt == Min(record.lastActivityAt + config.idle, record.createdAt + config.absolute)
  }

  ghost predicate AllSlide(config: Config, table: Table) {
    forall t | t in table.records :: Slides(config, table.records[t])
  }

  /** Over every run, a session expires at its last activity plus the idle time, but never later
      than its creation plus the absolute time. */
  lemma {:induction false} DeadlinesOverRuns(config: Config, table: Table, run: seq<Timed>)
    requires AllSlide(config, table)
    ensures AllSlide(config, Run(config, table, run))
    decreases run
  {
    if run != [] {
      DeadlinesOverRuns(config, Step(config, table, run[0]), run[1..]);
    }
  }

  // ---- Once dead, always dead ----

  /** No request with this token is accepted at `now`, whatever the user's status. */
  ghost predicate Dead(table: Table, token: Token, now: int) {
    token in table.records ==>
      table.records[token].revokedAt.Some? || Expired(table.records[token], now)
  }

  ghost predicate NeverCreates(run: seq<Timed>, token: Token) {
    forall at | at in run :: at.event.Create? ==> at.event.token != token
  }

  /** A token once rejected for expiry or revocation is rejected in every later request. */
  lemma {:induction false} DeadTokensStayDead(config: Config, table: Table, token: Token, now: int, run: seq<Timed>)
    requires Dead(table, token, now) && Chronological(run, now) && NeverCreates(run, token)
    ensures forall i :: 0 <= i < |run| && run[i].event == Authenticate(token)
              ==> !Answers(config, table, run)[i]
    decreases run
  {
    if run != [] {
      var next := Step(config, table, run[0]);
      assert run[0] in run;
      assert Dead(next, token, run[0].now);
      DeadTokensStayDead(config, next, token, run[0].now, run[1..]);
    }
  }

  /** After a password change, which revokes every session of the user, no token the user held
      is accepted again. */
  lemma PasswordChangeEndsSessions(config: Config, table: Table, user: nat, token: Token, now: int, run: seq<Timed>)
    requires token in table.records && table.records[token].user == user
    requires Chronological(run, now) && NeverCreates(run, token)
    ensures forall i :: 0 <= i < |run| && run[i].event == Authenticate(token)
              ==> !Answers(config, AfterRevokeAll(table, user, None, now), run)[i]
  {
    DeadTokensStayDead(config, AfterRevokeAll(table, user, None, now), token, now, run);
  }

  /** A revoked token is not accepted again, from the moment of its revocation on. */
  lemma RevokedTokensStayRefused(config: Config, table: Table, token: Token, now: int, run: seq<Timed>)
    requires token in table.records && Chronological(run, now) && NeverCreates(run, token)
    ensures forall i :: 0 <= i < |run| && run[i].event == Authenticate(token)
              ==> !Answers(config, AfterRevoke(table, token, now), run)[i]
  {
    DeadTokensStayDead(config, AfterRevoke(table, token, now), token, now, run);
  }

  /** Over every run the row of a revoked session stays as it is until it is deleted: a second
      revocation does not move the time of the first. */
  lemma {:induction false} RevokedRecordsStay(config: Config, table: Table, token: Token, run: seq<Timed>)
    requires token in table.records ==> table.records[token].revokedAt.Some?
    requires NeverCreates(run, token)
    ensures var after := Run(config, table, run).records;
            token in after ==> token in table.records && after[token] == table.records[token]
    decreases run
  {
    if run != [] {
      assert run[0] in run;
      RevokedRecordsStay(config, Step(config, table, run[0]), token, run[1..]);
    }
  }

  /** A login that rotates its session: the previous token is not accepted again. */
  lemma RotatedTokensStayRefused(config: Config, table: Table, previous: Token, token: Token, user: nat, now: int, run: seq<Timed>)
    requires previous in table.records && Chronological(run, now) && NeverCreates(run, previous)
    ensures forall i :: 0 <= i < |run| && run[i].event == Authenticate(previous)
              ==> !Answers(config, AfterCreate(config, AfterRevoke(table, previous, now), token, user, now), run)[i]
  {
    DeadTokensStayDead(config, AfterCreate(config, AfterRevoke(table, previous, now), token, user, now), previous, now, run);
  }

  /** Revoking one token, or all of one user but one, does nothing to any other session. */
  lemma RevocationSparesOthers(table: Table, token: Token, user: nat, exempt: Option<Token>, now: int, other: Token)
    requires other in table.records
    ensures other != token ==> other in AfterRevoke(table, token, now).records
                               && AfterRevoke(table, token, now).records[other] == table.records[other]
    ensures Some(other) == exempt || table.records[other].user != user ==>
              other in AfterRevokeAll(table, user, exempt, now).records
              && AfterRevokeAll(table, user, exempt, now).records[other] == table.records[other]
    ensures AfterRevoke(table, token, now).activeUsers == table.activeUsers == AfterRevokeAll(table, user, exempt, now).activeUsers
    ensures AfterRevoke(table, token, now).records.Keys == table.records.Keys == AfterRevokeAll(table, user, exempt, now).records.Keys
  {
  }

  /** What a request is accepted on, in any state that runs can reach: the session is there, not
      revoked, used within the idle time, younger than the absolute time, and its user is active. */
  lemma AcceptedExactlyWhen(config: Config, table: Table, token: Token, now: int)
    requires AllSlide(config, table)
    ensures Accepts(table, token, now)
            <==> && token in table.records
                 && var record := table.records[token];
                    && record.revokedAt == None
                    && now < record.lastActivityAt + config.idle && now < record.createdAt + config.absolute
                    && record.user in table.activeUsers
  {
  }

  /** A new session is accepted at once, and without use exactly until its idle time is over. */
  lemma NewSessionsLive(config: Config, table: Table, token: Token, user: nat, now: int, later: int)
    requires config.Valid() && token !in table.records && user in table.activeUsers && now <= later
    ensures Accepts(AfterCreate(config, table, token, user, now), token, later) <==> later < now + config.idle
    ensures var t := AfterCreate(config, table, token, user, now);
            t.records - {token} == table.records && t.records[token].user == user && t.activeUsers == table.activeUsers
  {
    assert AfterCreate(config, table, token, user, now).records - {token} == table.records;
  }

  /** Recorded activity lags behind an accepted request by less than the touch interval, and an
      accepted request changes nothing else. */
  lemma ActivityIsRecorded(config: Config, table: Table, token: Token, now: int)
    requires Accepts(table, token, now)
    ensures var before, after := table.records[token], AfterAuthenticate(config, table, token, now);
            && after.records == table.records[token := after.records[token]] && after.activeUsers == table.activeUsers
            && now - after.records[token].lastActivityAt <= Unrecorded(config)
            && (after.records[token] == before
                || after.records[token] == before.(lastActivityAt := now, expiresAt := after.records[token].expiresAt))
  {
  }

  /** Over every run, no request is accepted at or after the absolute deadline of its session. */
  lemma {:induction false} AbsoluteDeadlineHolds(config: Config, table: Table, token: Token, run: seq<Timed>)
    requires token in table.records && NeverCreates(run, token)
    ensures forall i :: 0 <= i < |run| && run[i].event == Authenticate(token) && Answers(config, table, run)[i] ==>
              run[i].now < table.records[token].absoluteExpiresAt
    decreases run
  {
    if run != [] {
      var next := Step(config, table, run[0]);
      assert run[0] in run;
      if token in next.records {
        AbsoluteDeadlineHolds(config, next, token, run[1..]);
      } else {
        UnknownTokensAreRefused(config, next, token, run[1..]);
      }
    }
  }

  lemma {:induction false} UnknownTokensAreRefused(config: Config, table: Table, token: Token, run: seq<Timed>)
    requires token !in table.records && NeverCreates(run, token)
    ensures forall i :: 0 <= i < |run| && run[i].event == Authenticate(token) ==> !Answers(config, table, run)[i]
    decreases run
  {
    if run != [] {
      assert run[0] in run;
      UnknownTokensAreRefused(config, Step(config, table, run[0]), token, run[1..]);
    }
  }

  /** Over every run, a user who is inactive is refused until made active again. */
  lemma {:induction false} InactiveUsersAreRefused(config: Config, table: Table, token: Token, user: nat, run: seq<Timed>)
    requires user !in table.activeUsers && (token in table.records ==> table.records[token].user == user)
    requires NeverCreates(run, token) && forall at :: at in run ==> at.event != SetActive(user, true)
    ensures forall i :: 0 <= i < |run| && run[i].event == Authenticate(token) ==> !Answers(config, table, run)[i]
    decreases run
  {
    if run != [] {
      assert run[0] in run;
      InactiveUsersAreRefused(config, Step(config, table, run[0]), token, user, run[1..]);
    }
  }

  /** Cleanup removes every expired session and nothing else. */
  lemma CleanupRemovesExactly(table: Table, now: int, token: Token)
    ensures token in AfterCleanup(table, now).records
            <==> token in table.records && now < table.records[token].expiresAt && now < table.records[token].absoluteExpiresAt
    ensures token in AfterCleanup(table, now).records ==> AfterCleanup(table, now).records[token] == table.records[token]
    ensures AfterCleanup(table, now).activeUsers == table.activeUsers
  {
  }

  // ---- Keeping a session alive ----

  function Requests(token: Token, times: seq<int>): (run: seq<Timed>)
    ensures |run| == |times|
  {
    if times == [] then [] else [At(times[0], Authenticate(token))] + Requests(token, times[1..])
  }

  /** The requests of this token come at most `gap` after one another, the first at most `gap` after
      `since`. What else happens in between does not matter. */
  ghost predicate Spaced(run: seq<Timed>, token: Token, since: int, gap: int) {
    run != [] ==>
      var isRequest := run[0].event == Authenticate(token);
      && (isRequest ==> run[0].now <= since + gap)
      && Spaced(run[1..], token, if isRequest then run[0].now else since, gap)
  }

  /** The event ends neither this session nor its user's access. */
  predicate Spares(event: Event, token: Token, user: nat) {
    match event
    case Revoke(t) => t != token
    case RevokeAll(u, exempt) => u != user || exempt == Some(token)
    case SetActive(u, active) => u != user || active
    case _ => true
  }

  predicate HasRequest(run: seq<Timed>, token: Token) {
    exists i :: 0 <= i < |run| && run[i].event == Authenticate(token)
  }

  /** How long after its recorded activity a session may have been used without a new record. */
  function Unrecorded(config: Config): nat {
    if config.touch == 0 then 0 else config.touch - 1
  }

  /** The largest spacing that is safe. */
  function SafeGap(config: Config): int {
    config.idle - 1 - Unrecorded(config)
  }

  /** As long as a request is still to come, it comes in time. */
  lemma {:induction false} RequestComesInTime(run: seq<Timed>, token: Token, since: int, gap: int, clock: int, limit: int)
    requires HasRequest(run, token) && Spaced(run, token, since, gap) && Chronological(run, clock)
    requires forall at :: at in run && at.event == Authenticate(token) ==> at.now < limit
    ensures clock <= since + gap && clock < limit
  {
    assert run[0] in run;
    if run[0].event != Authenticate(token) {
      var i :| 0 <= i < |run| && run[i].event == Authenticate(token);
      assert run[1..][i - 1].event == Authenticate(token);
      RequestComesInTime(run[1..], token, since, gap, run[0].now, limit);
    }
  }

  /** The session is alive, in use since `since`, and spared. */
  ghost predicate InUse(config: Config, table: Table, token: Token, since: int) {
    && token in table.records && Slides(config, table.records[token])
    && table.records[token].revokedAt == None && table.records[token].user in table.activeUsers
    && since - table.records[token].lastActivityAt <= Unrecorded(config)
  }

  /** One event of the run leaves the session in use, if a request is at hand or still to come. */
  lemma StaysInUse(config: Config, table: Table, token: Token, since: int, at: Timed)
    requires config.Valid() && InUse(config, table, token, since) && Spares(at.event, token, table.records[token].user)
    requires at.now <= since + SafeGap(config) && at.now < table.records[token].absoluteExpiresAt
    ensures var isRequest := at.event == Authenticate(token);
            var next := Step(config, table, at);
            && (isRequest ==> Accepts(table, token, at.now))
            && InUse(config, next, token, if isRequest then at.now else since)
            && next.records[token].user == table.records[token].user
            && next.records[token].absoluteExpiresAt == table.records[token].absoluteExpiresAt
  {
  }

  /** Requests spaced by at most SafeGap stay accepted until the absolute deadline, whatever happens
      to other sessions and users in between, cleanups included. */
  lemma {:induction false} SpacedRequestsStayAccepted(config: Config, table: Table, token: Token, since: int, clock: int, run: seq<Timed>)
    requires config.Valid() && InUse(config, table, token, since)
    requires Chronological(run, clock) && Spaced(run, token, since, SafeGap(config))
    requires forall at :: at in run ==> Spares(at.event, token, table.records[token].user)
    requires forall at :: at in run && at.event == Authenticate(token) ==> at.now < table.records[token].absoluteExpiresAt
    ensures forall i :: 0 <= i < |run| && run[i].event == Authenticate(token) ==> Answers(config, table, run)[i]
    decreases run
  {
    hide Step, Accepts, Chronological, Spaced, Slides;
    if HasRequest(run, token) {
      var at, rest := run[0], run[1..];
      var isRequest := at.event == Authenticate(token);
      assert at in run;
      FirstComesInTime(config, table, token, since, clock, run);
      StaysInUse(config, table, token, since, at);
      TailOf(run, token, since, SafeGap(config), clock);
      SpacedRequestsStayAccepted(config, Step(config, table, at), token, if isRequest then at.now else since, at.now, rest);
      forall i | 0 <= i < |run| && run[i].event == Authenticate(token)
        ensures Answers(config, table, run)[i]
      {
        assert i > 0 ==> run[i] == rest[i - 1];
      }
    }
  }

  lemma FirstComesInTime(config: Config, table: Table, token: Token, since: int, clock: int, run: seq<Timed>)
    requires HasRequest(run, token) && token in table.records
    requires Chronological(run, clock) && Spaced(run, token, since, SafeGap(config))
    requires forall at :: at in run && at.event == Authenticate(token) ==> at.now < table.records[token].absoluteExpiresAt
    ensures run[0].now <= since + SafeGap(config) && run[0].now < table.records[token].absoluteExpiresAt
  {
    assert Chronological(run, run[0].now);
    RequestComesInTime(run, token, since, SafeGap(config), run[0].now, table.records[token].absoluteExpiresAt);
  }

  lemma TailOf(run: seq<Timed>, token: Token, since: int, gap: int, clock: int)
    requires run != [] && Chronological(run, clock) && Spaced(run, token, since, gap)
    ensures Chronological(run[1..], run[0].now)
    ensures Spaced(run[1..], token, if run[0].event == Authenticate(token) then run[0].now else since, gap)
  {
  }

  /** No larger spacing is safe: an accepted request, then one that comes SafeGap + 1 later and
      well before the absolute deadline, and is refused. */
  lemma SafeGapIsTight(config: Config, token: Token, user: nat)
    requires config.Valid()
    ensures var table := Table(map[token := NewRecord(config, user, 0)], {user});
            var times := [Unrecorded(config), Unrecorded(config) + SafeGap(config) + 1];
            && Answers(config, table, Requests(token, times)) == [true, false]
            && times[1] < table.records[token].absoluteExpiresAt
  {
    var table := Table(map[token := NewRecord(config, user, 0)], {user});
    var times := [Unrecorded(config), config.idle];
    assert times[1..] == [config.idle];
    var first, last := At(times[0], Authenticate(token)), At(times[1], Authenticate(token));
    assert Requests(token, times[1..]) == [last];
    assert Requests(token, times) == [first, last];
    assert [first, last][1..] == [last];
    assert Step(config, table, first).records == table.records;
    assert Answers(config, table, [last]) == [false];
  }

  // ---- Cleanup is invisible ----

  /** `cleaned` is `table` without some sessions that have expired by `now`. */
  ghost predicate CleanedCopy(table: Table, cleaned: Table, now: int) {
    && cleaned.activeUsers == table.activeUsers
    && cleaned.records.Keys <= table.records.Keys
    && (forall t | t in cleaned.records :: cleaned.records[t] == table.records[t])
    && (forall t | t in table.records && t !in cleaned.records :: Expired(table.records[t], now))
  }

  ghost predicate NeverReuses(run: seq<Timed>, used: set<Token>) {
    forall at | at in run :: at.event.Create? ==> at.event.token !in used
  }

  lemma CleanedCopyStep(config: Config, table: Table, cleaned: Table, at: Timed)
    requires CleanedCopy(table, cleaned, at.now)
    requires at.event.Create? ==> at.event.token !in table.records.Keys - cleaned.records.Keys
    ensures Answer(table, at) == Answer(cleaned, at)
    ensures CleanedCopy(Step(config, table, at), Step(config, cleaned, at), at.now)
    ensures Step(config, table, at).records.Keys - Step(config, cleaned, at).records.Keys
            <= table.records.Keys - cleaned.records.Keys
  {
    match at.event
    case Create(token, user) =>
    case Authenticate(token) =>
    case Revoke(token) =>
    case RevokeAll(user, exempt) =>
    case Cleanup =>
    case SetActive(user, active) =>
  }

  lemma {:induction false} CleanedCopiesAgree(config: Config, table: Table, cleaned: Table, now: int, run: seq<Timed>)
    requires CleanedCopy(table, cleaned, now) && Chronological(run, now)
    requires NeverReuses(run, table.records.Keys - cleaned.records.Keys)
    ensures Answers(config, table, run) == Answers(config, cleaned, run)
    decreases run
  {
    if run != [] {
      assert run[0] in run;
      CleanedCopyStep(config, table, cleaned, run[0]);
      CleanedCopiesAgree(config, Step(config, table, run[0]), Step(config, cleaned, run[0]), run[0].now, run[1..]);
    }
  }

  /** Deleting expired sessions changes the answer to no later request. */
  lemma CleanupChangesNoAnswer(config: Config, table: Table, now: int, run: seq<Timed>)
    requires Chronological(run, now) && NeverReuses(run, table.records.Keys)
    ensures Answers(config, AfterCleanup(table, now), run) == Answers(config, table, run)
  {
    CleanedCopiesAgree(config, table, AfterCleanup(table, now), now, run);
  }
}
