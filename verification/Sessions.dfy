/**
 The server-side session store and the per-request gate, as a deterministic step function over
 the two tables they share (auth_sessions and users). Each row-locked transaction is one step.
 The history variable `issued` records every refresh secret a session was ever given.
 */
module Sessions {
  import opened Options
  import opened Text

  /** Durations in milliseconds; the retention is in days. */
  datatype Config = Config(
    idleMs: int, absoluteMs: int, activityMinUpdateMs: int, refreshGraceMs: int, cleanupRetentionDays: int)

  /** What the configuration parser guarantees. */
  ghost predicate ValidConfig(c: Config) {
    && c.idleMs > 0 && c.absoluteMs > 0 && c.activityMinUpdateMs > 0
    && c.refreshGraceMs > 0 && c.cleanupRetentionDays >= 1
  }

  /** An ideal SHA-256: distinct secrets have distinct digests. */
  datatype Digest = Sha256(preimage: string)

  datatype RevokeReason =
    AbsoluteTimeout | IdleTimeout | RefreshReuse | UserDisabled | AuthVersionChanged | Logout | RevokeAll | Other(text: string)

  datatype Session = Session(
    id: nat, userId: int, currentHash: Digest, prevHash: Option<Digest>, rotatedAt: int,
    authVersionAtIssue: int, createdAt: int, lastActivityAt: int, idleExpiresAt: int,
    absoluteExpiresAt: int, revokedAt: Option<int>, revokedReason: Option<RevokeReason>)

  datatype User = User(authVersion: int, passive: bool)

  datatype State = State(
    users: map<int, User>, rows: map<string, Session>, nextId: nat,
    issued: map<string, seq<string>>, knownUsers: set<int>)

  datatype AuthVia = Cookie | Bearer | Ingest | ApiKey

  /** What the gate sees of a request; `hasUser` says whether authentication attached a principal. */
  datatype Request = Request(
    apiPath: bool, logoutPost: bool, via: AuthVia, hasUser: bool, userId: Option<int>,
    claimAv: Option<int>, sid: Option<string>, exp: Option<int>)

  datatype Op =
    | Create(sid: string, secret: string, userId: int, authVersion: int)
    | Validate(sid: string)
    | Touch(sid: string)
    | Refresh(raw: string, nextSecret: string)
    | Revoke(sid: string, reason: Option<RevokeReason>)
    | RevokeUser(userId: int, reason: Option<RevokeReason>)
    | Cleanup(batchSize: int, chosen: set<string>)
    | Bump(userId: int)
    | Gate(sessionEnforced: bool, req: Request)
    | AddUser(userId: int, user: User)
    | SetPassive(userId: int, passive: bool)
    | DeleteUser(userId: int)

  datatype Event = Event(now: int, op: Op)

  datatype Refusal =
    Malformed | Missing | NotFound | WasRevoked | AbsoluteExpired | IdleExpired | Reuse | Disabled | StaleVersion

  datatype GateAnswer = Unauthorized | TokenExpired | SessionExpiredAbsolute | SessionExpiredIdle

  datatype Reply =
    | Created(token: string)
    | Valid(userId: int)
    | Touched(updated: bool)
    | Rotated(sid: string, userId: int, token: string, authVersion: int)
    | Graced(sid: string, userId: int, authVersion: int)
    | Refused(reason: Refusal)
    | RevokedOne(revoked: bool)
    | RevokedMany(count: nat)
    | Deleted(count: nat)
    | Bumped(version: Option<int>)
    | Passed
    | Denied(answer: GateAnswer)
    | Done

  /** Refresh token wire format `<sessionId>.<secret>`, split at the first dot. */
  function ParseRefreshToken(raw: string): Option<(string, string)> {
    var s := Trim(raw);
    var i := IndexOf(s, '.');
    if i == 0 || i >= |s| - 1 then None else Some((s[..i], s[i + 1..]))
  }

  function Token(sid: string, secret: string): string {
    sid + "." + secret
  }

  /** revokeWithin and the revoke statements: the first time and reason win. */
  function RevokeRow(row: Session, reason: RevokeReason, now: int): Session {
    row.(revokedAt := Coalesce(row.revokedAt, Some(now)),
         revokedReason := Coalesce(row.revokedReason, Some(reason)))
  }

  function NewRow(c: Config, st: State, now: int, op: Op): Session
    requires op.Create?
  {
    Session(st.nextId, op.userId, Sha256(op.secret), None, now, op.authVersion, now, now,
            now + c.idleMs, now + c.absoluteMs, None, None)
  }

  function ValidateAccess(st: State, sid: string, now: int): Reply {
    if sid == "" then Refused(Missing)
    else if sid !in st.rows then Refused(NotFound)
    else
      var row := st.rows[sid];
      if row.revokedAt.Some? then Refused(WasRevoked)
      else if row.absoluteExpiresAt <= now then Refused(AbsoluteExpired)
      else if row.idleExpiresAt <= now then Refused(IdleExpired)
      else Valid(row.userId)
  }

  predicate TouchApplies(c: Config, row: Session, now: int) {
    && row.revokedAt.None?
    && row.absoluteExpiresAt > now
    && row.idleExpiresAt > now
    && row.lastActivityAt <= now - c.activityMinUpdateMs
  }

  predicate WithinGrace(c: Config, row: Session, presented: Digest, now: int) {
    && row.prevHash.Some?
    && now - row.rotatedAt <= c.refreshGraceMs
    && presented == row.prevHash.value
  }

  function WithRow(st: State, sid: string, row: Session): State {
    st.(rows := st.rows[sid := row])
  }

  function RotateRefresh(c: Config, st: State, now: int, raw: string, nextSecret: string): (State, Reply) {
    var parsed := ParseRefreshToken(raw);
    if parsed.None? then (st, Refused(Malformed))
    else
      var (sid, secret) := parsed.value;
      if sid !in st.rows || st.rows[sid].userId !in st.users then (st, Refused(NotFound))
      else
        var row := st.rows[sid];
        var user := st.users[row.userId];
        var presented := Sha256(secret);
        var matchesCurrent := presented == row.currentHash;
        var withinGrace := WithinGrace(c, row, presented, now);
        if row.revokedAt.Some? then
          (st, Refused(WasRevoked))
        else if row.absoluteExpiresAt <= now then
          (WithRow(st, sid, RevokeRow(row, AbsoluteTimeout, now)), Refused(AbsoluteExpired))
        else if row.idleExpiresAt <= now then
          (WithRow(st, sid, RevokeRow(row, IdleTimeout, now)), Refused(IdleExpired))
        else if !matchesCurrent && !withinGrace then
          (WithRow(st, sid, RevokeRow(row, RefreshReuse, now)), Refused(Reuse))
        else if user.passive then
          (WithRow(st, sid, RevokeRow(row, UserDisabled, now)), Refused(Disabled))
        else if user.authVersion != row.authVersionAtIssue then
          (WithRow(st, sid, RevokeRow(row, AuthVersionChanged, now)), Refused(StaleVersion))
        else if withinGrace && !matchesCurrent then
          (st, Graced(sid, row.userId, user.authVersion))
        else
          (Rotate(st, sid, now, nextSecret), Rotated(sid, row.userId, Token(sid, nextSecret), user.authVersion))
  }

  function Rotate(st: State, sid: string, now: int, nextSecret: string): State
    requires sid in st.rows
  {
    var row := st.rows[sid];
    st.(rows := st.rows[sid := row.(prevHash := Some(row.currentHash), currentHash := Sha256(nextSecret), rotatedAt := now)],
        issued := st.issued[sid := IssuedTo(st, sid) + [nextSecret]])
  }

  /** Every refresh secret the session was ever given, oldest first. */
  function IssuedTo(st: State, sid: string): seq<string> {
    if sid in st.issued then st.issued[sid] else []
  }

  function RevokeAllRows(rows: map<string, Session>, userId: int, reason: RevokeReason, now: int): map<string, Session> {
    map sid | sid in rows ::
      if rows[sid].userId == userId && rows[sid].revokedAt.None? then RevokeRow(rows[sid], reason, now) else rows[sid]
  }

  /** The rows one retention sweep may delete. */
  predicate Terminal(row: Session, cutoff: int) {
    (row.revokedAt.Some? && row.revokedAt.value < cutoff) || row.absoluteExpiresAt < cutoff
  }

  function Cutoff(c: Config, now: int): int {
    now - c.cleanupRetentionDays * 24 * 60 * 60 * 1000
  }

  function TerminalIds(rows: map<string, Session>, cutoff: int): set<string> {
    set sid | sid in rows && Terminal(rows[sid], cutoff)
  }

  /** `Number(opts.batchSize) || 1000`, at least 1. */
  function EffectiveBatch(batchSize: int): int {
    if batchSize == 0 then 1000 else if batchSize < 1 then 1 else batchSize
  }

  /** ORDER BY id LIMIT n over the terminal rows. */
  ghost predicate IsCleanupBatch(rows: map<string, Session>, cutoff: int, n: int, chosen: set<string>) {
    && chosen <= TerminalIds(rows, cutoff)
    && |chosen| <= n
    && (|chosen| < n ==> chosen == TerminalIds(rows, cutoff))
    && forall a, b :: a in chosen && b in TerminalIds(rows, cutoff) - chosen ==> rows[a].id <= rows[b].id
  }

  /** True when the gate goes on to look at the session row. */
  predicate SessionChecked(sessionEnforced: bool, req: Request) {
    TokenChecked(req) && sessionEnforced && req.via.Cookie?
  }

  /** True when the gate examines the token instead of passing the request through. */
  predicate TokenChecked(req: Request) {
    req.apiPath && !req.logoutPost && !req.via.Ingest? && !req.via.ApiKey? && req.hasUser
  }

  function GateDecision(st: State, sessionEnforced: bool, req: Request, now: int): Reply {
    if !TokenChecked(req) then Passed
    else if req.userId.None? || req.claimAv.None? then Denied(Unauthorized)
    else
      var enforce := sessionEnforced && req.via.Cookie?;
      if enforce && (req.sid.None? || req.sid.value == "") then Denied(Unauthorized)
      else if req.via.Bearer? && req.exp.None? then Denied(Unauthorized)
      else if req.via.Bearer? && req.exp.value * 1000 <= now then Denied(TokenExpired)
      else if req.userId.value !in st.users then Denied(Unauthorized)
      else
        var user := st.users[req.userId.value];
        if user.passive || user.authVersion != req.claimAv.value then Denied(Unauthorized)
        else if !enforce then Passed
        else if req.sid.value !in st.rows || st.rows[req.sid.value].userId != req.userId.value then Denied(Unauthorized)
        else
          var row := st.rows[req.sid.value];
          if row.revokedAt.Some? then Denied(Unauthorized)
          else if row.absoluteExpiresAt <= now then Denied(SessionExpiredAbsolute)
          else if row.idleExpiresAt <= now then Denied(SessionExpiredIdle)
          else Passed
  }

  /** One request or transaction: the state it leaves and the answer it gives. */
  function Step(c: Config, st: State, ev: Event): (State, Reply) {
    var now := ev.now;
    match ev.op
    case Create(sid, secret, userId, authVersion) =>
      (st.(rows := st.rows[sid := NewRow(c, st, now, ev.op)], nextId := st.nextId + 1,
           issued := st.issued[sid := [secret]]),
       Created(Token(sid, secret)))
    case Validate(sid) => (st, ValidateAccess(st, sid, now))
    case Touch(sid) =>
      if sid in st.rows && TouchApplies(c, st.rows[sid], now) then
        (WithRow(st, sid, st.rows[sid].(lastActivityAt := now, idleExpiresAt := now + c.idleMs)), Touched(true))
      else (st, Touched(false))
    case Refresh(raw, nextSecret) => RotateRefresh(c, st, now, raw, nextSecret)
    case Revoke(sid, reason) =>
      if sid in st.rows && st.rows[sid].revokedAt.None? then
        (WithRow(st, sid, RevokeRow(st.rows[sid], ReasonOr(reason, Logout), now)), RevokedOne(true))
      else (st, RevokedOne(false))
    case RevokeUser(userId, reason) =>
      (st.(rows := RevokeAllRows(st.rows, userId, ReasonOr(reason, RevokeAll), now)),
       RevokedMany(|ActiveSessionsOf(st.rows, userId)|))
    case Cleanup(_, chosen) => (st.(rows := st.rows - chosen), Deleted(|chosen|))
    case Bump(userId) =>
      if userId in st.users then
        var v := st.users[userId].authVersion + 1;
        (st.(users := st.users[userId := st.users[userId].(authVersion := v)]), Bumped(Some(v)))
      else (st, Bumped(None))
    case Gate(enforced, req) => (st, GateDecision(st, enforced, req, now))
    case AddUser(userId, user) =>
      (st.(users := st.users[userId := user], knownUsers := st.knownUsers + {userId}), Done)
    case SetPassive(userId, passive) =>
      if userId in st.users then (st.(users := st.users[userId := st.users[userId].(passive := passive)]), Done)
      else (st, Done)
    case DeleteUser(userId) =>
      (st.(users := st.users - {userId},
           rows := map sid | sid in st.rows && st.rows[sid].userId != userId :: st.rows[sid]), Done)
  }

  function ReasonOr(reason: Option<RevokeReason>, default: RevokeReason): RevokeReason {
    if reason.Some? then reason.value else default
  }

  function ActiveSessionsOf(rows: map<string, Session>, userId: int): set<string> {
    set sid | sid in rows && rows[sid].userId == userId && rows[sid].revokedAt.None?
  }

  /** A secret no session was ever given. */
  ghost predicate FreshSecret(st: State, secret: string) {
    forall sid :: sid in st.issued ==> secret !in st.issued[sid]
  }

  /**
   What the environment guarantees: random identifiers and secrets are new, a login copies the
   version it read from the user row, user ids are not reused, and a sweep takes the first rows by id.
   */
  ghost predicate Enabled(c: Config, st: State, ev: Event) {
    match ev.op
    case Create(sid, secret, userId, authVersion) =>
      sid !in st.issued && FreshSecret(st, secret)
      && userId in st.users && authVersion <= st.users[userId].authVersion
    case Refresh(_, nextSecret) => FreshSecret(st, nextSecret)
    case Cleanup(batchSize, chosen) =>
      IsCleanupBatch(st.rows, Cutoff(c, ev.now), EffectiveBatch(batchSize), chosen)
    case AddUser(userId, _) => userId !in st.knownUsers
    case _ => true
  }

  /** A run: states[i] becomes states[i + 1] by events[i], and the clock never goes back. */
  ghost predicate IsRun(c: Config, states: seq<State>, events: seq<Event>) {
    && |states| == |events| + 1
    && (forall i :: 0 <= i < |events| ==> StepAt(c, states, events, i))
    && (forall i, j :: 0 <= i <= j < |events| ==> events[i].now <= events[j].now)
  }

  ghost predicate StepAt(c: Config, states: seq<State>, events: seq<Event>, i: nat)
    requires i < |events| < |states|
  {
    Enabled(c, states[i], events[i]) && states[i + 1] == Step(c, states[i], events[i]).0
  }

  function ReplyAt(c: Config, states: seq<State>, events: seq<Event>, i: nat): Reply
    requires i < |events| < |states|
  {
    Step(c, states[i], events[i]).1
  }

  ghost predicate Init(st: State) {
    st.rows == map[] && st.issued == map[] && st.users.Keys <= st.knownUsers
  }

  predicate Live(row: Session, now: int) {
    row.revokedAt.None? && now < row.absoluteExpiresAt && now < row.idleExpiresAt
  }

  /** The answer treats the session as alive: a check passed, a heartbeat counted or a refresh succeeded. */
  ghost predicate Accepts(ev: Event, reply: Reply, sid: string) {
    match ev.op
    case Validate(s) => s == sid && reply.Valid?
    case Touch(s) => s == sid && reply == Touched(true)
    case Refresh(_, _) => (reply.Rotated? || reply.Graced?) && reply.sid == sid
    case Gate(enforced, req) => SessionChecked(enforced, req) && req.sid == Some(sid) && reply == Passed
    case _ => false
  }
}
