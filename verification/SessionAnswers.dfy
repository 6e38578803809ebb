/** What each call of the session store answers and leaves, and what that means for the calls that follow. */
module SessionAnswers {
  import opened Options
  import opened Text
  import opened Sessions
  import opened SessionProofs

  // ----- refresh tokens ------------------------------------------------------------------------

  /** The wire format, read backwards: a token is a non-empty id without a dot, a dot and a non-empty secret. */
  lemma TokenParsesIff(raw: string, sid: string, secret: string)
    ensures ParseRefreshToken(raw) == Some((sid, secret)) <==>
              Trim(raw) == Token(sid, secret) && sid != "" && secret != "" && '.' !in sid
  {
    var s := Trim(raw);
    var i := IndexOf(s, '.');
    if ParseRefreshToken(raw) == Some((sid, secret)) {
      assert s == s[..i] + [s[i]] + s[i + 1..];
    }
    if s == Token(sid, secret) && sid != "" && secret != "" && '.' !in sid {
      assert s[|sid|] == '.' && forall k :: 0 <= k < |sid| ==> s[k] == sid[k];
      assert i == |sid| && s[..i] == sid && s[i + 1..] == secret;
    }
  }

  /** Ids and secrets as the program mints them: a UUID and hexadecimal digits. */
  predicate Minted(s: string) {
    s != "" && '.' !in s && !IsSpace(s[0]) && !IsSpace(s[|s| - 1])
  }

  lemma TokenTrimsToItself(sid: string, secret: string)
    requires sid != "" && secret != "" && !IsSpace(sid[0]) && !IsSpace(secret[|secret| - 1])
    ensures Trim(Token(sid, secret)) == Token(sid, secret)
  {
    var t := Token(sid, secret);
    assert t[0] == sid[0] && t[|t| - 1] == secret[|secret| - 1];
    assert t == "" + t + "";
    TrimIsTheCore(t, "", t, "");
  }

  /** The reply hands out a refresh token for this session. */
  predicate HandsOut(ev: Event, reply: Reply, sid: string) {
    || (ev.op.Create? && ev.op.sid == sid && reply.Created?)
    || (ev.op.Refresh? && reply.Rotated? && reply.sid == sid)
  }

  /** The secret the event brings into the store. */
  predicate BringsMinted(ev: Event) {
    && (ev.op.Create? ==> Minted(ev.op.sid) && Minted(ev.op.secret))
    && (ev.op.Refresh? ==> Minted(ev.op.nextSecret))
  }

  /** The reply's token names the session and the newest secret in the store. */
  ghost predicate CarriesNewest(st: State, reply: Reply, sid: string) {
    && (reply.Created? || reply.Rotated?) && sid in st.rows && |IssuedTo(st, sid)| > 0
    && ParseRefreshToken(reply.token) == Some((sid, IssuedTo(st, sid)[|IssuedTo(st, sid)| - 1]))
  }

  /** Every token handed out, at login or by a rotation, names its session and the newest secret in the store. */
  lemma HandedTokenIsNewest(c: Config, states: seq<State>, events: seq<Event>, i: nat, sid: string)
    requires IsRun(c, states, events) && i < |events|
    requires HandsOut(events[i], ReplyAt(c, states, events, i), sid) && BringsMinted(events[i])
    ensures CarriesNewest(states[i + 1], ReplyAt(c, states, events, i), sid)
  {
    assert StepAt(c, states, events, i);
    var ev := events[i];
    var secret := if ev.op.Create? then ev.op.secret else ev.op.nextSecret;
    HandedOutFields(c, states[i], ev, sid, secret);
    IdIsMinted(ev, sid);
    NewestFromFields(states[i + 1], ReplyAt(c, states, events, i), sid, secret);
  }

  lemma NewestFromFields(st: State, reply: Reply, sid: string, secret: string)
    requires GotSecret(st, reply, sid, secret) && sid != "" && '.' !in sid && !IsSpace(sid[0]) && Minted(secret)
    ensures CarriesNewest(st, reply, sid)
  {
    MintedParses(sid, secret);
  }

  /** The secret is the newest one in the store and the one in the token. */
  ghost predicate GotSecret(st: State, reply: Reply, sid: string, secret: string) {
    && (reply.Created? || reply.Rotated?) && sid in st.rows && sid in st.issued && |st.issued[sid]| > 0
    && st.issued[sid][|st.issued[sid]| - 1] == secret && reply.token == Token(sid, secret)
  }

  lemma IdIsMinted(ev: Event, sid: string)
    requires BringsMinted(ev)
    requires (ev.op.Create? && ev.op.sid == sid)
             || (ev.op.Refresh? && ParseRefreshToken(ev.op.raw).Some? && ParseRefreshToken(ev.op.raw).value.0 == sid)
    ensures sid != "" && '.' !in sid && !IsSpace(sid[0])
  {
    if ev.op.Refresh? {
      ParsedIdStartsTrimmed(ev.op.raw, sid, ParseRefreshToken(ev.op.raw).value.1);
    }
  }

  lemma HandedOutFields(c: Config, st: State, ev: Event, sid: string, secret: string)
    requires HandsOut(ev, Step(c, st, ev).1, sid)
    requires secret == if ev.op.Create? then ev.op.secret else ev.op.nextSecret
    ensures GotSecret(Step(c, st, ev).0, Step(c, st, ev).1, sid, secret)
    ensures ev.op.Refresh? ==> ParseRefreshToken(ev.op.raw).Some? && ParseRefreshToken(ev.op.raw).value.0 == sid
  {
  }

  lemma ParsedIdStartsTrimmed(raw: string, sid: string, secret: string)
    requires ParseRefreshToken(raw) == Some((sid, secret))
    ensures sid != "" && '.' !in sid && !IsSpace(sid[0])
  {
    TokenParsesIff(raw, sid, secret);
    var front, back := TrimCutsSpaces(raw);
    assert Trim(raw)[0] == sid[0];
  }

  lemma MintedParses(sid: string, secret: string)
    requires sid != "" && '.' !in sid && !IsSpace(sid[0]) && Minted(secret)
    ensures ParseRefreshToken(Token(sid, secret)) == Some((sid, secret))
  {
    TokenTrimsToItself(sid, secret);
    TokenParsesIff(Token(sid, secret), sid, secret);
  }

  /**
   Presented at any later time before another rotation of its session, it rotates exactly while the session
   is live and its user entitled.
   */
  lemma HandedTokenRotates(c: Config, states: seq<State>, events: seq<Event>, i: nat, j: nat, sid: string)
    requires ValidConfig(c) && IsRun(c, states, events) && Init(states[0]) && i < j < |events|
    requires HandsOut(events[i], ReplyAt(c, states, events, i), sid) && BringsMinted(events[i])
    requires events[j].op.Refresh? && events[j].op.raw == ReplyAt(c, states, events, i).token
    requires sid in states[j].rows && IssuedTo(states[j], sid) == IssuedTo(states[i + 1], sid)
    ensures states[j].rows[sid].userId in states[j].users
    ensures
      var row := states[j].rows[sid];
      var user := states[j].users[row.userId];
      ReplyAt(c, states, events, j).Rotated? <==>
        Live(row, events[j].now) && !user.passive && user.authVersion == row.authVersionAtIssue
  {
    HandedTokenIsNewest(c, states, events, i, sid);
    var secrets := IssuedTo(states[j], sid);
    assert ParseRefreshToken(events[j].op.raw) == Some((sid, secrets[|secrets| - 1]));
    RefreshAcceptsNewestOrGracedPredecessor(c, states, events, j, sid, secrets[|secrets| - 1]);
  }

  // ----- refusals ------------------------------------------------------------------------------

  /** Why a refresh of a known session is refused, in the order the reasons are looked at. */
  ghost predicate RefusedFor(c: Config, st: State, sid: string, secret: string, now: int, reason: Refusal)
    requires sid in st.rows && st.rows[sid].userId in st.users
  {
    var row, user := st.rows[sid], st.users[st.rows[sid].userId];
    var known := Sha256(secret) == row.currentHash
                 || (row.prevHash == Some(Sha256(secret)) && now - row.rotatedAt <= c.refreshGraceMs);
    match reason
    case WasRevoked => row.revokedAt.Some?
    case AbsoluteExpired => row.revokedAt.None? && row.absoluteExpiresAt <= now
    case IdleExpired => row.revokedAt.None? && now < row.absoluteExpiresAt && row.idleExpiresAt <= now
    case Reuse => Live(row, now) && !known
    case Disabled => Live(row, now) && known && user.passive
    case StaleVersion => Live(row, now) && known && !user.passive && user.authVersion != row.authVersionAtIssue
    case _ => false
  }

  /** The reason that a refusal leaves on the row. */
  function Mark(reason: Refusal): Option<RevokeReason> {
    match reason
    case AbsoluteExpired => Some(AbsoluteTimeout)
    case IdleExpired => Some(IdleTimeout)
    case Reuse => Some(RefreshReuse)
    case Disabled => Some(UserDisabled)
    case StaleVersion => Some(AuthVersionChanged)
    case _ => None
  }

  /**
   Every refusal of a refresh has its one cause, and all but a revocation seen before revoke the session
   on the spot for that cause. No refresh touches another session or a user.
   */
  lemma RefusalsRevoke(c: Config, st: State, ev: Event, sid: string, secret: string)
    requires ev.op.Refresh? && ParseRefreshToken(ev.op.raw) == Some((sid, secret))
    requires sid in st.rows && st.rows[sid].userId in st.users
    ensures
      var (st', reply) := Step(c, st, ev);
      && (forall reason :: reply == Refused(reason) <==> RefusedFor(c, st, sid, secret, ev.now, reason))
      && st'.users == st.users && st'.rows.Keys == st.rows.Keys
      && (forall other :: other in st.rows && other != sid ==> st'.rows[other] == st.rows[other])
      && (reply.Refused? && Mark(reply.reason).None? ==> st' == st)
      && (reply.Refused? && Mark(reply.reason).Some? && st.rows[sid].revokedReason.None? ==>
            st'.rows[sid] == st.rows[sid].(revokedAt := Some(ev.now), revokedReason := Mark(reply.reason)))
  {
  }

  /** A token that does not parse, or names no session of an existing user, changes nothing. */
  lemma UnknownTokenIsRefused(c: Config, st: State, ev: Event)
    requires ev.op.Refresh?
    ensures
      var parsed, (st', reply) := ParseRefreshToken(ev.op.raw), Step(c, st, ev);
      && (reply == Refused(Malformed) <==> parsed.None?)
      && (reply == Refused(Sessions.NotFound) <==>
            parsed.Some? && (parsed.value.0 in st.rows ==> st.rows[parsed.value.0].userId !in st.users))
      && (reply == Refused(Malformed) || reply == Refused(Sessions.NotFound) ==> st' == st)
  {
  }

  /** The read-only check: valid exactly for a live session, and otherwise the first cause that applies. */
  lemma ValidationAnswer(c: Config, st: State, now: int, sid: string)
    ensures
      var (st', reply) := Step(c, st, Event(now, Validate(sid)));
      && st' == st
      && (reply.Valid? <==> sid != "" && sid in st.rows && Live(st.rows[sid], now))
      && (reply.Valid? ==> reply.userId == st.rows[sid].userId)
      && (reply == Refused(Missing) <==> sid == "")
      && (reply == Refused(Sessions.NotFound) <==> sid != "" && sid !in st.rows)
      && (sid != "" && sid in st.rows ==>
            var row := st.rows[sid];
            && (reply == Refused(WasRevoked) <==> row.revokedAt.Some?)
            && (reply == Refused(AbsoluteExpired) <==> row.revokedAt.None? && row.absoluteExpiresAt <= now)
            && (reply == Refused(IdleExpired) <==>
                  row.revokedAt.None? && now < row.absoluteExpiresAt && row.idleExpiresAt <= now))
  {
  }

  // ----- revocation ----------------------------------------------------------------------------

  /** A revocation answers whether it was the first, and marks exactly its own sessions. */
  lemma RevocationAnswers(c: Config, st: State, now: int, sid: string, userId: int, reason: Option<RevokeReason>)
    requires forall s :: s in st.rows ==> (st.rows[s].revokedAt.Some? <==> st.rows[s].revokedReason.Some?)
    ensures
      var (st', reply) := Step(c, st, Event(now, Revoke(sid, reason)));
      && st'.users == st.users && st'.rows.Keys == st.rows.Keys
      && (reply == RevokedOne(true) <==> sid in st.rows && st.rows[sid].revokedAt.None?)
      && (reply == RevokedOne(true) || reply == RevokedOne(false))
      && (reply == RevokedOne(false) ==> st' == st)
      && (reply == RevokedOne(true) ==>
            st'.rows[sid] == st.rows[sid].(revokedAt := Some(now), revokedReason := Some(if reason.Some? then reason.value else Logout)))
      && (forall s :: s in st.rows && s != sid ==> st'.rows[s] == st.rows[s])
    ensures
      var (st', reply) := Step(c, st, Event(now, RevokeUser(userId, reason)));
      && st'.users == st.users && st'.rows.Keys == st.rows.Keys
      && reply == RevokedMany(|set s | s in st.rows && st.rows[s].userId == userId && st.rows[s].revokedAt.None?|)
      && (forall s :: s in st.rows ==>
            st'.rows[s] ==
            if st.rows[s].userId == userId && st.rows[s].revokedAt.None? then
              st.rows[s].(revokedAt := Some(now), revokedReason := Some(if reason.Some? then reason.value else RevokeAll))
            else st.rows[s])
  {
    var a := set s | s in st.rows && st.rows[s].userId == userId && st.rows[s].revokedAt.None?;
    assert a == ActiveSessionsOf(st.rows, userId);
  }

  /** The event revokes the session: alone, or with all sessions of its user. */
  predicate Revokes(st: State, ev: Event, sid: string) {
    && sid in st.rows
    && ((ev.op.Revoke? && ev.op.sid == sid) || (ev.op.RevokeUser? && ev.op.userId == st.rows[sid].userId))
  }

  lemma RevokesToDeath(c: Config, st: State, ev: Event, sid: string, t: int)
    requires Revokes(st, ev, sid) && sid in st.issued
    ensures Dead(Step(c, st, ev).0, sid, t)
  {
  }

  lemma RevokedInRun(c: Config, states: seq<State>, events: seq<Event>, i: nat, sid: string)
    requires ValidConfig(c) && IsRun(c, states, events) && Init(states[0]) && i < |events|
    requires Revokes(states[i], events[i], sid)
    ensures Dead(states[i + 1], sid, events[i].now)
  {
    RunKeepsInv(c, states, events, i);
    assert RowInv(c, states[i], sid);
    assert StepAt(c, states, events, i);
    RevokesToDeath(c, states[i], events[i], sid, events[i].now);
  }

  /** After a logout or a logout everywhere, no check accepts the session again in the rest of the run. */
  lemma RevokedIsNeverAccepted(c: Config, states: seq<State>, events: seq<Event>, i: nat, j: nat, sid: string)
    requires ValidConfig(c) && IsRun(c, states, events) && Init(states[0]) && i < j < |events|
    requires Revokes(states[i], events[i], sid)
    ensures !Accepts(events[j], ReplyAt(c, states, events, j), sid)
  {
    RevokedInRun(c, states, events, i, sid);
    assert events[i].now <= events[i + 1].now;
    DeadSessionIsNeverAccepted(c, states, events, i + 1, j, sid, events[i].now);
  }

  // ----- the gate ------------------------------------------------------------------------------

  /** What a token must show, apart from the session: a user, a version, and for a bearer an expiry to come. */
  predicate TokenHolds(req: Request, now: int) {
    && req.userId.Some? && req.claimAv.Some?
    && (req.via.Bearer? ==> req.exp.Some? && now < req.exp.value * 1000)
  }

  /** The user exists, is not disabled and is at the version the token claims. */
  predicate UserHolds(st: State, req: Request)
    requires req.userId.Some? && req.claimAv.Some?
  {
    && req.userId.value in st.users
    && !st.users[req.userId.value].passive && st.users[req.userId.value].authVersion == req.claimAv.value
  }

  /** The token's session is a row of that user. */
  predicate SessionFits(st: State, req: Request)
    requires req.userId.Some?
  {
    req.sid.Some? && req.sid.value != "" && req.sid.value in st.rows && st.rows[req.sid.value].userId == req.userId.value
  }

  /**
   A request that the gate examines passes exactly when its token, its user and, for an interactive
   login under enforcement, its session all hold at this instant; every other request passes untouched.
   Expiry has its own answers, and only where nothing else is wrong.
   */
  lemma GatePassesIff(st: State, enforced: bool, req: Request, now: int)
    ensures
      var reply := GateDecision(st, enforced, req, now);
      && (reply == Passed || reply.Denied?)
      && (!TokenChecked(req) ==> reply == Passed)
      && (TokenChecked(req) ==>
            (reply == Passed <==>
             && TokenHolds(req, now) && UserHolds(st, req)
             && (SessionChecked(enforced, req) ==> SessionFits(st, req) && Live(st.rows[req.sid.value], now))))
      && (reply == Denied(TokenExpired) <==>
            TokenChecked(req) && req.via.Bearer? && req.userId.Some? && req.claimAv.Some?
            && req.exp.Some? && req.exp.value * 1000 <= now)
      && (reply == Denied(SessionExpiredAbsolute) <==>
            SessionChecked(enforced, req) && TokenHolds(req, now) && UserHolds(st, req) && SessionFits(st, req)
            && st.rows[req.sid.value].revokedAt.None? && st.rows[req.sid.value].absoluteExpiresAt <= now)
      && (reply == Denied(SessionExpiredIdle) <==>
            SessionChecked(enforced, req) && TokenHolds(req, now) && UserHolds(st, req) && SessionFits(st, req)
            && st.rows[req.sid.value].revokedAt.None? && now < st.rows[req.sid.value].absoluteExpiresAt
            && st.rows[req.sid.value].idleExpiresAt <= now)
  {
  }

  /** Which requests the gate examines: API calls of a signed-in person, except the logout itself. */
  lemma ExaminedIff(enforced: bool, req: Request)
    ensures TokenChecked(req) <==>
              req.apiPath && !req.logoutPost && req.hasUser && (req.via.Cookie? || req.via.Bearer?)
    ensures SessionChecked(enforced, req) <==> TokenChecked(req) && enforced && req.via.Cookie?
  {
  }

  /** A bump answers the new version and changes nothing else. */
  lemma BumpAnswer(c: Config, st: State, now: int, u: int)
    ensures
      var (st', reply) := Step(c, st, Event(now, Bump(u)));
      && st'.rows == st.rows && st'.users.Keys == st.users.Keys
      && (u !in st.users ==> st' == st && reply == Bumped(None))
      && (u in st.users ==>
            st'.users[u] == User(st.users[u].authVersion + 1, st.users[u].passive) && reply == Bumped(Some(st'.users[u].authVersion)))
      && (forall v :: v in st.users && v != u ==> st'.users[v] == st.users[v])
  {
  }

  // ----- retention -----------------------------------------------------------------------------

  const DAY_MS: int := 86_400_000

  /** A swept session had been revoked or past its absolute bound for longer than the retention. */
  lemma SweptSessionsAreOld(c: Config, st: State, ev: Event, sid: string)
    requires Enabled(c, st, ev) && ev.op.Cleanup? && sid in st.rows
    ensures
      var (st', reply) := Step(c, st, ev);
      var row := st.rows[sid];
      && st'.users == st.users && reply == Deleted(|st.rows| - |st'.rows|)
      && (sid in st'.rows ==> st'.rows[sid] == row)
      && (sid !in st'.rows ==>
            || (row.revokedAt.Some? && row.revokedAt.value + c.cleanupRetentionDays * DAY_MS < ev.now)
            || row.absoluteExpiresAt + c.cleanupRetentionDays * DAY_MS < ev.now)
  {
    var chosen := ev.op.chosen;
    assert chosen <= st.rows.Keys;
    assert (st.rows - chosen).Keys == st.rows.Keys - chosen;
    assert |st.rows.Keys - chosen| == |st.rows.Keys| - |chosen|;
  }

  /** A sweep that deletes fewer rows than its batch size has deleted all old ones; none exceeds it. */
  lemma SweepIsComplete(c: Config, st: State, ev: Event, sid: string)
    requires Enabled(c, st, ev) && ev.op.Cleanup? && sid in st.rows
    ensures
      var (st', reply) := Step(c, st, ev);
      var n := if ev.op.batchSize == 0 then 1000 else if ev.op.batchSize < 1 then 1 else ev.op.batchSize;
      && reply.Deleted? && reply.count <= n
      && (reply.count < n && sid in st'.rows ==>
            && (st.rows[sid].revokedAt.Some? ==> ev.now <= st.rows[sid].revokedAt.value + c.cleanupRetentionDays * DAY_MS)
            && ev.now <= st.rows[sid].absoluteExpiresAt + c.cleanupRetentionDays * DAY_MS)
  {
    if |ev.op.chosen| < EffectiveBatch(ev.op.batchSize) {
      assert Terminal(st.rows[sid], Cutoff(c, ev.now)) ==> sid in TerminalIds(st.rows, Cutoff(c, ev.now));
    }
  }

  ghost predicate IdsDiffer(st: State) {
    && (forall s :: s in st.rows ==> st.rows[s].id < st.nextId)
    && (forall a, b :: a in st.rows && b in st.rows && a != b ==> st.rows[a].id != st.rows[b].id)
  }

  /** No row of the later state is new, and none has another id. */
  ghost predicate SameIds(st: State, st': State) {
    st'.nextId == st.nextId && forall s :: s in st'.rows ==> s in st.rows && st'.rows[s].id == st.rows[s].id
  }

  lemma RefreshKeepsIds(c: Config, st: State, ev: Event)
    requires ev.op.Refresh?
    ensures SameIds(st, Step(c, st, ev).0)
  {
  }

  lemma OthersKeepIds(c: Config, st: State, ev: Event)
    requires !ev.op.Create? && !ev.op.Refresh?
    ensures SameIds(st, Step(c, st, ev).0)
  {
  }

  lemma StepKeepsIds(c: Config, st: State, ev: Event)
    requires IdsDiffer(st)
    ensures IdsDiffer(Step(c, st, ev).0)
  {
    if ev.op.Refresh? {
      RefreshKeepsIds(c, st, ev);
    } else if !ev.op.Create? {
      OthersKeepIds(c, st, ev);
    }
  }

  /** Row ids are unique in every run, so the order a sweep goes by is total: it takes the oldest logins first. */
  lemma {:induction false} IdsAreUnique(c: Config, states: seq<State>, events: seq<Event>, i: nat)
    requires IsRun(c, states, events) && Init(states[0]) && i <= |events|
    ensures IdsDiffer(states[i])
  {
    if i > 0 {
      IdsAreUnique(c, states, events, i - 1);
      assert StepAt(c, states, events, i - 1);
      StepKeepsIds(c, states[i - 1], events[i - 1]);
    }
  }

  /** Among old sessions a sweep takes those with the lowest ids. */
  lemma SweepTakesLowestIds(c: Config, states: seq<State>, events: seq<Event>, i: nat, gone: string, kept: string)
    requires IsRun(c, states, events) && Init(states[0]) && i < |events| && events[i].op.Cleanup?
    requires gone in states[i].rows && gone !in states[i + 1].rows && kept in states[i].rows && kept in states[i + 1].rows
    requires states[i].rows[kept].absoluteExpiresAt + c.cleanupRetentionDays * DAY_MS < events[i].now
    ensures states[i].rows[gone].id < states[i].rows[kept].id
  {
    IdsAreUnique(c, states, events, i);
    assert StepAt(c, states, events, i);
    assert kept in TerminalIds(states[i].rows, Cutoff(c, events[i].now)) - events[i].op.chosen;
  }
}
