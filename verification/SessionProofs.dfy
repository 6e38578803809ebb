/** What holds of the session store in every run, however its steps interleave. */
module SessionProofs {
  import opened Options
  import opened Text
  import opened Sessions

  ghost predicate Distinct(s: seq<string>) {
    forall i, j :: 0 <= i < j < |s| ==> s[i] != s[j]
  }

  /** A stored row against its history: deadlines, hashes and version. */
  ghost predicate RowInv(c: Config, st: State, sid: string)
    requires sid in st.rows
  {
    var row := st.rows[sid];
    var secrets := IssuedTo(st, sid);
    && sid in st.issued
    && |secrets| > 0
    && row.userId in st.users
    && row.currentHash == Sha256(secrets[|secrets| - 1])
    && row.prevHash == (if |secrets| == 1 then None else Some(Sha256(secrets[|secrets| - 2])))
    && row.absoluteExpiresAt == row.createdAt + c.absoluteMs
    && row.idleExpiresAt == row.lastActivityAt + c.idleMs
    && row.createdAt <= row.lastActivityAt < row.absoluteExpiresAt
    && (row.revokedAt.Some? <==> row.revokedReason.Some?)
    && row.authVersionAtIssue <= st.users[row.userId].authVersion
  }

  ghost predicate Inv(c: Config, st: State) {
    && (forall sid :: sid in st.rows ==> RowInv(c, st, sid))
    && (forall sid :: sid in st.issued ==> Distinct(st.issued[sid]))
    && st.users.Keys <= st.knownUsers
  }

  /** The only ways a step can leave an existing row. */
  ghost predicate RowMove(c: Config, st: State, ev: Event, sid: string, row': Session, issued': seq<string>)
    requires sid in st.rows
  {
    var row, now := st.rows[sid], ev.now;
    || (row' == row && issued' == IssuedTo(st, sid))
    || (issued' == IssuedTo(st, sid) && row'.revokedReason.Some? && row' == RevokeRow(row, row'.revokedReason.value, now))
    || (issued' == IssuedTo(st, sid) && ev.op == Touch(sid) && TouchApplies(c, row, now)
        && row' == row.(lastActivityAt := now, idleExpiresAt := now + c.idleMs))
    || (ev.op.Refresh? && Live(row, now) && issued' == IssuedTo(st, sid) + [ev.op.nextSecret]
        && row' == row.(prevHash := Some(row.currentHash), currentHash := Sha256(ev.op.nextSecret), rotatedAt := now))
  }

  lemma RowMoves(c: Config, st: State, ev: Event, sid: string)
    requires Enabled(c, st, ev) && sid in st.rows && sid in st.issued && st.users.Keys <= st.knownUsers
    requires st.rows[sid].revokedAt.Some? <==> st.rows[sid].revokedReason.Some?
    ensures
      var st' := Step(c, st, ev).0;
      && sid in st'.issued
      && (sid in st'.rows ==> RowMove(c, st, ev, sid, st'.rows[sid], st'.issued[sid]))
      && (sid in st'.rows && st.rows[sid].userId in st.users ==>
            st.rows[sid].userId in st'.users
            && st.users[st.rows[sid].userId].authVersion <= st'.users[st.rows[sid].userId].authVersion)
  {
    match ev.op
    case Refresh(_, _) =>
    case RevokeUser(_, _) =>
    case _ =>
  }

  lemma OldRowKeepsInv(c: Config, st: State, ev: Event, sid: string)
    requires ValidConfig(c) && Enabled(c, st, ev) && st.users.Keys <= st.knownUsers
    requires sid in st.rows && RowInv(c, st, sid) && sid in Step(c, st, ev).0.rows
    ensures RowInv(c, Step(c, st, ev).0, sid)
  {
    RowMoves(c, st, ev, sid);
  }

  lemma NewRowHasInv(c: Config, st: State, ev: Event, sid: string)
    requires ValidConfig(c) && Enabled(c, st, ev)
    requires sid !in st.rows && sid in Step(c, st, ev).0.rows
    ensures RowInv(c, Step(c, st, ev).0, sid)
  {
  }

  lemma StepKeepsUsersKnown(c: Config, st: State, ev: Event)
    requires st.users.Keys <= st.knownUsers
    ensures Step(c, st, ev).0.users.Keys <= Step(c, st, ev).0.knownUsers
  {
  }

  lemma StepKeepsInv(c: Config, st: State, ev: Event)
    requires ValidConfig(c) && Inv(c, st) && Enabled(c, st, ev)
    ensures Inv(c, Step(c, st, ev).0)
  {
    forall sid | sid in Step(c, st, ev).0.rows
      ensures RowInv(c, Step(c, st, ev).0, sid)
    {
      if sid in st.rows {
        assert RowInv(c, st, sid);
        OldRowKeepsInv(c, st, ev, sid);
      } else {
        NewRowHasInv(c, st, ev, sid);
      }
    }
    StepKeepsUsersKnown(c, st, ev);
    StepKeepsSecretsDistinct(c, st, ev);
  }

  lemma StepKeepsSecretsDistinct(c: Config, st: State, ev: Event)
    requires Enabled(c, st, ev)
    requires forall sid :: sid in st.issued ==> Distinct(st.issued[sid])
    ensures forall sid :: sid in Step(c, st, ev).0.issued ==> Distinct(Step(c, st, ev).0.issued[sid])
  {
  }

  /** Every state of a run satisfies the invariant. */
  lemma {:induction false} RunKeepsInv(c: Config, states: seq<State>, events: seq<Event>, i: nat)
    requires ValidConfig(c) && IsRun(c, states, events) && Init(states[0]) && i <= |events|
    ensures Inv(c, states[i])
  {
    if i > 0 {
      RunKeepsInv(c, states, events, i - 1);
      assert StepAt(c, states, events, i - 1);
      StepKeepsInv(c, states[i - 1], events[i - 1]);
    }
  }

  /** RowMoves at a step of a run. */
  lemma RowMovesInRun(c: Config, states: seq<State>, events: seq<Event>, i: nat, sid: string)
    requires ValidConfig(c) && IsRun(c, states, events) && Init(states[0]) && i < |events| && sid in states[i].rows
    ensures RowInv(c, states[i], sid) && sid in states[i + 1].issued
    ensures sid in states[i + 1].rows ==>
              RowMove(c, states[i], events[i], sid, states[i + 1].rows[sid], states[i + 1].issued[sid])
  {
    RunKeepsInv(c, states, events, i);
    assert StepAt(c, states, events, i);
    assert RowInv(c, states[i], sid);
    RowMoves(c, states[i], events[i], sid);
  }

  // ----- refresh rotation --------------------------------------------------------------------

  /** Splitting a minted token gives back the session id and the secret. */
  lemma MintedTokenParses(sid: string, secret: string)
    requires sid != "" && secret != "" && '.' !in sid
    requires !IsSpace(sid[0]) && !IsSpace(secret[|secret| - 1])
    ensures ParseRefreshToken(Token(sid, secret)) == Some((sid, secret))
  {
    var t := Token(sid, secret);
    assert t[0] == sid[0] && t[|t| - 1] == secret[|secret| - 1] && t[|sid|] == '.';
    assert forall k :: 0 <= k < |sid| ==> t[k] == sid[k];
    assert IndexOf(t, '.') == |sid|;
    assert t[..|sid|] == sid && t[|sid| + 1..] == secret;
  }

  /** What a refresh with this secret must answer and leave, told from the history of issued secrets. */
  ghost predicate RefreshVerdict(c: Config, st: State, ev: Event, st': State, reply: Reply, sid: string, secret: string)
    requires ev.op.Refresh? && sid in st.rows && sid in st'.rows
    requires st.rows[sid].userId in st.users && |IssuedTo(st, sid)| > 0
  {
    var row, user, now, secrets := st.rows[sid], st.users[st.rows[sid].userId], ev.now, IssuedTo(st, sid);
    var newest := secret == secrets[|secrets| - 1];
    var graced := |secrets| > 1 && secret == secrets[|secrets| - 2] && now - row.rotatedAt <= c.refreshGraceMs;
    var entitled := Live(row, now) && !user.passive && user.authVersion == row.authVersionAtIssue;
    && (reply.Rotated? <==> entitled && newest)
    && (reply.Graced? <==> entitled && graced)
    && !(newest && graced)
    && (reply.Rotated? ==> IssuedTo(st', sid) == secrets + [ev.op.nextSecret])
    && (reply.Graced? ==> st' == st)
    && (Live(row, now) && !newest && !graced ==>
          reply == Refused(Reuse) && st'.rows[sid].revokedAt == Some(now)
          && st'.rows[sid].revokedReason == Some(RefreshReuse))
    && (!Live(row, now) ==> reply.Refused?)
  }

  lemma RefreshStep(c: Config, st: State, ev: Event, sid: string, secret: string)
    requires ev.op.Refresh? && ParseRefreshToken(ev.op.raw) == Some((sid, secret))
    requires sid in st.rows && RowInv(c, st, sid) && Distinct(st.issued[sid])
    ensures sid in Step(c, st, ev).0.rows
    ensures RefreshVerdict(c, st, ev, Step(c, st, ev).0, Step(c, st, ev).1, sid, secret)
  {
    var secrets := st.issued[sid];
    assert |secrets| > 1 ==> secrets[|secrets| - 2] != secrets[|secrets| - 1];
  }

  /**
   In every run, a refresh on a live session of an active user at the current version succeeds
   exactly for the newest secret (rotating) or, within the grace window after the last rotation,
   for its direct predecessor (changing nothing). Any other secret revokes the session as reuse,
   whatever the state of the user.
   */
  lemma RefreshAcceptsNewestOrGracedPredecessor(
    c: Config, states: seq<State>, events: seq<Event>, i: nat, sid: string, secret: string)
    requires ValidConfig(c) && IsRun(c, states, events) && Init(states[0]) && i < |events|
    requires events[i].op.Refresh? && ParseRefreshToken(events[i].op.raw) == Some((sid, secret))
    requires sid in states[i].rows
    ensures |IssuedTo(states[i], sid)| > 0 && states[i].rows[sid].userId in states[i].users && sid in states[i + 1].rows
    ensures RefreshVerdict(c, states[i], events[i], states[i + 1], ReplyAt(c, states, events, i), sid, secret)
  {
    RunKeepsInv(c, states, events, i);
    assert RowInv(c, states[i], sid);
    assert Distinct(states[i].issued[sid]);
    RefreshStep(c, states[i], events[i], sid, secret);
    assert StepAt(c, states, events, i);
  }

  /** The list of issued secrets only grows at its end, and survives the row. */
  lemma {:induction false} IssuedOnlyGrows(c: Config, states: seq<State>, events: seq<Event>, i: nat, j: nat, sid: string)
    requires IsRun(c, states, events) && i <= j <= |events| && sid in states[i].issued
    ensures sid in states[j].issued && states[i].issued[sid] <= states[j].issued[sid]
    decreases j
  {
    if i < j {
      IssuedOnlyGrows(c, states, events, i, j - 1, sid);
      assert StepAt(c, states, events, j - 1);
    }
  }

  /** However calls interleave, one secret produces at most one new refresh token. */
  lemma NoSecretRotatesTwice(c: Config, states: seq<State>, events: seq<Event>, i: nat, j: nat)
    requires ValidConfig(c) && IsRun(c, states, events) && Init(states[0]) && i < j < |events|
    requires events[i].op.Refresh? && ReplyAt(c, states, events, i).Rotated?
    requires events[j].op.Refresh? && ReplyAt(c, states, events, j).Rotated?
    ensures ParseRefreshToken(events[i].op.raw) != ParseRefreshToken(events[j].op.raw)
  {
    var (sid, secret) := ParseRefreshToken(events[i].op.raw).value;
    RefreshAcceptsNewestOrGracedPredecessor(c, states, events, i, sid, secret);
    if ParseRefreshToken(events[j].op.raw) == Some((sid, secret)) {
      RefreshAcceptsNewestOrGracedPredecessor(c, states, events, j, sid, secret);
      IssuedOnlyGrows(c, states, events, i + 1, j, sid);
      RunKeepsInv(c, states, events, j);
      DistinctFromLast(states[j].issued[sid], |states[i].issued[sid]| - 1);
    }
  }

  /** The event is a refresh with this secret, and it rotates the session. */
  ghost predicate RotatesWith(c: Config, st: State, ev: Event, sid: string, secret: string) {
    ev.op.Refresh? && ParseRefreshToken(ev.op.raw) == Some((sid, secret)) && Step(c, st, ev).1.Rotated?
  }

  /** How one step moves a session's secrets and rotation time: only its own rotation changes them. */
  ghost predicate RotationFact(c: Config, st: State, ev: Event, st': State, sid: string)
    requires sid in st'.rows
  {
    var before, after := IssuedTo(st, sid), IssuedTo(st', sid);
    && (sid !in st.rows ==> |after| == 1)
    && (sid in st.rows && after == before ==> st'.rows[sid].rotatedAt == st.rows[sid].rotatedAt)
    && (sid in st.rows && after != before ==>
          |after| > 1 && RotatesWith(c, st, ev, sid, after[|after| - 2]) && st'.rows[sid].rotatedAt == ev.now)
  }

  lemma RotationStep(c: Config, st: State, ev: Event, sid: string)
    requires Enabled(c, st, ev) && Inv(c, st) && sid in Step(c, st, ev).0.rows
    ensures RotationFact(c, st, ev, Step(c, st, ev).0, sid)
  {
    if sid in st.rows {
      assert RowInv(c, st, sid);
      RowMoves(c, st, ev, sid);
      if IssuedTo(Step(c, st, ev).0, sid) != IssuedTo(st, sid) {
        RotationOfSession(c, st, ev, sid);
      }
    } else {
      NewRowHasOneSecret(c, st, ev, sid);
    }
  }

  lemma RotationOfSession(c: Config, st: State, ev: Event, sid: string)
    requires Enabled(c, st, ev) && sid in st.rows && RowInv(c, st, sid) && sid in Step(c, st, ev).0.rows
    requires IssuedTo(Step(c, st, ev).0, sid) != IssuedTo(st, sid)
    ensures
      var secrets := IssuedTo(st, sid);
      && RotatesWith(c, st, ev, sid, secrets[|secrets| - 1])
      && |IssuedTo(Step(c, st, ev).0, sid)| == |secrets| + 1
      && IssuedTo(Step(c, st, ev).0, sid)[|secrets| - 1] == secrets[|secrets| - 1]
      && Step(c, st, ev).0.rows[sid].rotatedAt == ev.now
  {
    assert ev.op.Refresh?;
    var parsed := ParseRefreshToken(ev.op.raw);
    assert parsed.Some? && parsed.value.0 == sid;
  }

  /** The stored rotation time is that of the event that rotated the previous secret away. */
  lemma {:induction false} LastRotation(c: Config, states: seq<State>, events: seq<Event>, i: nat, sid: string) returns (k: nat)
    requires ValidConfig(c) && IsRun(c, states, events) && Init(states[0]) && i <= |events|
    requires sid in states[i].rows && |IssuedTo(states[i], sid)| > 1
    ensures k < i && states[i].rows[sid].rotatedAt == events[k].now
    ensures RotatesWith(c, states[k], events[k], sid, IssuedTo(states[i], sid)[|IssuedTo(states[i], sid)| - 2])
    decreases i
  {
    k := i - 1;
    RotationInRun(c, states, events, k, sid);
    if sid in states[k].rows && IssuedTo(states[i], sid) == IssuedTo(states[k], sid) {
      k := LastRotation(c, states, events, i - 1, sid);
    }
  }

  lemma RotationInRun(c: Config, states: seq<State>, events: seq<Event>, k: nat, sid: string)
    requires ValidConfig(c) && IsRun(c, states, events) && Init(states[0]) && k < |events| && sid in states[k + 1].rows
    ensures RotationFact(c, states[k], events[k], states[k + 1], sid)
  {
    RunKeepsInv(c, states, events, k);
    assert StepAt(c, states, events, k);
    RotationStep(c, states[k], events[k], sid);
  }

  lemma NewRowHasOneSecret(c: Config, st: State, ev: Event, sid: string)
    requires Enabled(c, st, ev) && sid !in st.rows && sid in Step(c, st, ev).0.rows
    ensures |IssuedTo(Step(c, st, ev).0, sid)| == 1
  {
  }

  /**
   A grace hit is always the loser of a race: the same secret rotated the session in an earlier event,
   at most refreshGraceMs before.
   */
  lemma GraceFollowsItsOwnRotation(c: Config, states: seq<State>, events: seq<Event>, i: nat) returns (k: nat)
    requires ValidConfig(c) && IsRun(c, states, events) && Init(states[0]) && i < |events|
    requires events[i].op.Refresh? && ReplyAt(c, states, events, i).Graced?
    ensures k < i && events[i].now - events[k].now <= c.refreshGraceMs
    ensures events[k].op.Refresh? && ReplyAt(c, states, events, k).Rotated?
    ensures ParseRefreshToken(events[k].op.raw) == ParseRefreshToken(events[i].op.raw)
  {
    var (sid, secret) := ParseRefreshToken(events[i].op.raw).value;
    RefreshAcceptsNewestOrGracedPredecessor(c, states, events, i, sid, secret);
    k := LastRotation(c, states, events, i, sid);
  }

  lemma DistinctFromLast(s: seq<string>, k: nat)
    requires Distinct(s) && k < |s| - 1
    ensures s[k] != s[|s| - 1]
  {
  }

  // ----- a dead session stays dead -------------------------------------------------------------

  /** Revoked, idle-expired, absolute-expired, or already removed from the table. */
  ghost predicate Dead(st: State, sid: string, now: int) {
    sid in st.issued && (sid !in st.rows || !Live(st.rows[sid], now))
  }

  lemma DeadStep(c: Config, st: State, ev: Event, sid: string)
    requires Enabled(c, st, ev) && Dead(st, sid, ev.now)
    ensures !Accepts(ev, Step(c, st, ev).1, sid)
    ensures Dead(Step(c, st, ev).0, sid, ev.now)
  {
  }

  lemma {:induction false} StaysDead(
    c: Config, states: seq<State>, events: seq<Event>, i: nat, j: nat, sid: string, t: int)
    requires IsRun(c, states, events) && i <= j < |events|
    requires Dead(states[i], sid, t) && t <= events[i].now
    ensures Dead(states[j], sid, events[j].now)
    decreases j
  {
    if i < j {
      StaysDead(c, states, events, i, j - 1, sid, t);
      assert StepAt(c, states, events, j - 1);
      DeadStep(c, states[j - 1], events[j - 1], sid);
    }
  }

  /** Once a session is dead, no later gate check, validation, heartbeat or refresh accepts it. */
  lemma DeadSessionIsNeverAccepted(
    c: Config, states: seq<State>, events: seq<Event>, i: nat, j: nat, sid: string, t: int)
    requires IsRun(c, states, events) && i <= j < |events|
    requires Dead(states[i], sid, t) && t <= events[i].now
    ensures !Accepts(events[j], ReplyAt(c, states, events, j), sid)
  {
    StaysDead(c, states, events, i, j, sid, t);
    assert StepAt(c, states, events, j);
    DeadStep(c, states[j], events[j], sid);
  }

  /** Only the retention sweep and the deletion of its user remove a row; the sweep never removes a live one. */
  lemma OnlyDeadSessionsAreSwept(c: Config, states: seq<State>, events: seq<Event>, i: nat, sid: string)
    requires ValidConfig(c) && IsRun(c, states, events) && Init(states[0]) && i < |events|
    requires sid in states[i].rows && sid !in states[i + 1].rows
    ensures
      var row := states[i].rows[sid];
      || events[i].op == DeleteUser(row.userId)
      || (events[i].op.Cleanup? && !Live(row, events[i].now)
          && (row.revokedAt.Some? || row.createdAt + c.absoluteMs < events[i].now))
  {
    RunKeepsInv(c, states, events, i);
    assert StepAt(c, states, events, i);
    assert RowInv(c, states[i], sid);
    RemovalStep(c, states[i], events[i], sid);
  }

  lemma RemovalStep(c: Config, st: State, ev: Event, sid: string)
    requires ValidConfig(c) && Enabled(c, st, ev) && sid in st.rows && sid !in Step(c, st, ev).0.rows
    ensures ev.op == DeleteUser(st.rows[sid].userId) || (ev.op.Cleanup? && Terminal(st.rows[sid], ev.now))
  {
  }

  /** A session that lost its row never gets one again. */
  lemma RemovedStaysRemoved(c: Config, st: State, ev: Event, sid: string)
    requires Enabled(c, st, ev) && sid in st.issued && sid !in st.rows
    ensures sid !in Step(c, st, ev).0.rows
  {
  }

  /** The first revocation's time and reason are never overwritten while the row exists. */
  lemma {:induction false} FirstRevocationWins(c: Config, states: seq<State>, events: seq<Event>, i: nat, j: nat, sid: string)
    requires ValidConfig(c) && IsRun(c, states, events) && Init(states[0]) && i <= j <= |events|
    requires sid in states[i].rows && states[i].rows[sid].revokedAt.Some?
    ensures sid in states[j].rows ==>
              states[j].rows[sid].revokedAt == states[i].rows[sid].revokedAt
              && states[j].rows[sid].revokedReason == states[i].rows[sid].revokedReason
    decreases j
  {
    if i < j {
      FirstRevocationWins(c, states, events, i, j - 1, sid);
      if sid in states[j - 1].rows {
        RowMovesInRun(c, states, events, j - 1, sid);
      } else {
        RowMovesInRun(c, states, events, i, sid);
        IssuedOnlyGrows(c, states, events, i, j - 1, sid);
        assert StepAt(c, states, events, j - 1);
        RemovedStaysRemoved(c, states[j - 1], events[j - 1], sid);
      }
    }
  }

  // ----- idle and absolute bounds --------------------------------------------------------------

  /** A login or a heartbeat that counted: the only things that set the activity clock. */
  ghost predicate IsActivity(c: Config, states: seq<State>, events: seq<Event>, k: nat, sid: string)
    requires k < |events| < |states|
  {
    || (events[k].op.Create? && events[k].op.sid == sid)
    || (events[k].op == Touch(sid) && ReplyAt(c, states, events, k) == Touched(true))
  }

  ghost predicate IsLogin(events: seq<Event>, k: nat, sid: string)
    requires k < |events|
  {
    events[k].op.Create? && events[k].op.sid == sid
  }

  /** The stored clocks are the times of real events: the login, and the last counted activity. */
  lemma {:induction false} ClocksComeFromEvents(c: Config, states: seq<State>, events: seq<Event>, i: nat, sid: string)
    returns (login: nat, activity: nat)
    requires ValidConfig(c) && IsRun(c, states, events) && Init(states[0]) && i <= |events|
    requires sid in states[i].rows
    ensures login <= activity < i
    ensures IsLogin(events, login, sid) && states[i].rows[sid].createdAt == events[login].now
    ensures IsActivity(c, states, events, activity, sid) && states[i].rows[sid].lastActivityAt == events[activity].now
    decreases i
  {
    var k := i - 1;
    assert StepAt(c, states, events, k);
    if IsLogin(events, k, sid) {
      return k, k;
    }
    ClockStep(c, states[k], events[k], sid);
    login, activity := ClocksComeFromEvents(c, states, events, k, sid);
    if IsActivity(c, states, events, k, sid) {
      activity := k;
    }
  }

  lemma ClockStep(c: Config, st: State, ev: Event, sid: string)
    requires !(ev.op.Create? && ev.op.sid == sid) && sid in Step(c, st, ev).0.rows
    ensures
      var (st', reply) := Step(c, st, ev);
      && sid in st.rows && st'.rows[sid].createdAt == st.rows[sid].createdAt
      && st'.rows[sid].lastActivityAt
         == if ev.op == Touch(sid) && reply == Touched(true) then ev.now else st.rows[sid].lastActivityAt
  {
    match ev.op
    case Refresh(_, _) =>
    case RevokeUser(_, _) =>
    case _ =>
  }

  lemma AcceptedMeansLive(c: Config, st: State, ev: Event, sid: string)
    requires Accepts(ev, Step(c, st, ev).1, sid)
    ensures sid in st.rows && Live(st.rows[sid], ev.now)
  {
  }

  /**
   Whatever is accepted at time t (gate, validation, heartbeat or refresh) comes less than
   absoluteMs after the session's login and less than idleMs after a login or counted heartbeat.
   */
  lemma AcceptedOnlyWithinBounds(c: Config, states: seq<State>, events: seq<Event>, i: nat, sid: string)
    returns (login: nat, activity: nat)
    requires ValidConfig(c) && IsRun(c, states, events) && Init(states[0]) && i < |events|
    requires Accepts(events[i], ReplyAt(c, states, events, i), sid)
    ensures login <= activity < i
    ensures IsLogin(events, login, sid) && events[i].now < events[login].now + c.absoluteMs
    ensures IsActivity(c, states, events, activity, sid) && events[i].now < events[activity].now + c.idleMs
  {
    AcceptedMeansLive(c, states[i], events[i], sid);
    RunKeepsInv(c, states, events, i);
    assert RowInv(c, states[i], sid);
    login, activity := ClocksComeFromEvents(c, states, events, i, sid);
  }

  /** No step but a counted heartbeat moves an existing row's idle bound, and none moves the absolute bound. */
  lemma OnlyHeartbeatMovesIdleBound(c: Config, states: seq<State>, events: seq<Event>, i: nat, sid: string)
    requires ValidConfig(c) && IsRun(c, states, events) && Init(states[0]) && i < |events|
    requires sid in states[i].rows && sid in states[i + 1].rows
    ensures states[i + 1].rows[sid].absoluteExpiresAt == states[i].rows[sid].absoluteExpiresAt
    ensures states[i + 1].rows[sid].idleExpiresAt != states[i].rows[sid].idleExpiresAt ==>
              events[i].op == Touch(sid) && Live(states[i].rows[sid], events[i].now)
  {
    RowMovesInRun(c, states, events, i, sid);
  }

  /**
   A heartbeat counts exactly when the session is live and its throttle interval has passed; it then
   keeps the session live for idleMs, within the absolute lifetime.
   */
  lemma CountedHeartbeatRenews(c: Config, st: State, now: int, sid: string, t: int)
    requires sid in st.rows && now <= t
    ensures
      var (st', reply) := Step(c, st, Event(now, Touch(sid)));
      && sid in st'.rows
      && (reply == Touched(true) <==>
            Live(st.rows[sid], now) && st.rows[sid].lastActivityAt + c.activityMinUpdateMs <= now)
      && (reply == Touched(true) ==>
            (Live(st'.rows[sid], t) <==> t < now + c.idleMs && t < st.rows[sid].absoluteExpiresAt))
  {
  }

  /** Event k is a heartbeat for the session that was written. */
  ghost predicate WritesHeartbeat(c: Config, states: seq<State>, events: seq<Event>, k: nat, sid: string)
    requires k < |events| < |states|
  {
    events[k].op == Touch(sid) && ReplyAt(c, states, events, k) == Touched(true)
  }

  /** How many heartbeats were written for the session in the first i events. */
  ghost function HeartbeatWrites(c: Config, states: seq<State>, events: seq<Event>, i: nat, sid: string): nat
    requires i <= |events| < |states|
  {
    if i == 0 then 0
    else
      HeartbeatWrites(c, states, events, i - 1, sid)
      + (if WritesHeartbeat(c, states, events, i - 1, sid) then 1 else 0)
  }

  /** How far the activity clock has moved since the login; 0 before the session exists. */
  ghost function LifetimeUsed(st: State, sid: string): int {
    if sid in st.rows then st.rows[sid].lastActivityAt - st.rows[sid].createdAt else 0
  }

  /** Whatever the client sends, the heartbeats written over a session's life fit in its absolute lifetime. */
  lemma {:induction false} HeartbeatWritesAreBounded(c: Config, states: seq<State>, events: seq<Event>, i: nat, sid: string)
    requires ValidConfig(c) && IsRun(c, states, events) && Init(states[0]) && i <= |events|
    ensures HeartbeatWrites(c, states, events, i, sid) * c.activityMinUpdateMs < c.absoluteMs
    ensures sid in states[i].rows || sid !in states[i].issued ==>
              HeartbeatWrites(c, states, events, i, sid) * c.activityMinUpdateMs <= LifetimeUsed(states[i], sid)
  {
    if i > 0 {
      HeartbeatWritesAreBounded(c, states, events, i - 1, sid);
      HeartbeatInRun(c, states, events, i - 1, sid);
      var n := HeartbeatWrites(c, states, events, i - 1, sid);
      assert (n + 1) * c.activityMinUpdateMs == n * c.activityMinUpdateMs + c.activityMinUpdateMs;
    }
  }

  lemma HeartbeatInRun(c: Config, states: seq<State>, events: seq<Event>, k: nat, sid: string)
    requires ValidConfig(c) && IsRun(c, states, events) && Init(states[0]) && k < |events|
    ensures sid in states[k + 1].rows ==> sid in states[k].rows || sid !in states[k].issued
    ensures sid !in states[k + 1].issued ==> sid !in states[k].issued
    ensures LifetimeUsed(states[k], sid) <= LifetimeUsed(states[k + 1], sid) || sid !in states[k + 1].rows
    ensures sid !in states[k].issued ==> sid !in states[k].rows
    ensures sid !in states[k + 1].issued ==> sid !in states[k + 1].rows
    ensures WritesHeartbeat(c, states, events, k, sid) ==>
              && sid in states[k].rows && sid in states[k + 1].rows
              && LifetimeUsed(states[k + 1], sid) >= LifetimeUsed(states[k], sid) + c.activityMinUpdateMs
              && LifetimeUsed(states[k + 1], sid) < c.absoluteMs
  {
    RunKeepsInv(c, states, events, k);
    RunKeepsInv(c, states, events, k + 1);
    assert StepAt(c, states, events, k);
    assert sid in states[k].rows ==> RowInv(c, states[k], sid);
    assert sid in states[k + 1].rows ==> RowInv(c, states[k + 1], sid);
    HeartbeatStep(c, states[k], events[k], sid);
  }

  /** One step: it either writes no heartbeat for the session, or advances its clock within its lifetime. */
  lemma HeartbeatStep(c: Config, st: State, ev: Event, sid: string)
    requires ValidConfig(c) && Enabled(c, st, ev) && (sid in st.rows ==> RowInv(c, st, sid))
    ensures
      var (st', reply) := Step(c, st, ev);
      && (sid in st'.rows && sid !in st.rows ==> sid !in st.issued)
      && (sid in st.issued ==> sid in st'.issued)
      && (sid in st'.rows ==> LifetimeUsed(st, sid) <= LifetimeUsed(st', sid))
      && (ev.op == Touch(sid) && reply == Touched(true) ==>
            && sid in st.rows && sid in st'.rows
            && LifetimeUsed(st, sid) + c.activityMinUpdateMs <= LifetimeUsed(st', sid) < c.absoluteMs)
  {
  }

  // ----- auth_version --------------------------------------------------------------------------

  lemma {:induction false} VersionsOnlyGrow(c: Config, states: seq<State>, events: seq<Event>, i: nat, j: nat, u: int)
    requires IsRun(c, states, events) && states[0].users.Keys <= states[0].knownUsers
    requires i <= j <= |events| && u in states[i].users
    ensures u in states[j].knownUsers
    ensures u in states[j].users ==> states[i].users[u].authVersion <= states[j].users[u].authVersion
    decreases j
  {
    if i < j {
      VersionsOnlyGrow(c, states, events, i, j - 1, u);
      assert StepAt(c, states, events, j - 1);
    } else {
      KnownUsersCoverUsers(c, states, events, i);
    }
  }

  lemma {:induction false} KnownUsersCoverUsers(c: Config, states: seq<State>, events: seq<Event>, i: nat)
    requires IsRun(c, states, events) && states[0].users.Keys <= states[0].knownUsers && i <= |events|
    ensures states[i].users.Keys <= states[i].knownUsers
  {
    if i > 0 {
      KnownUsersCoverUsers(c, states, events, i - 1);
      assert StepAt(c, states, events, i - 1);
      StepKeepsUsersKnown(c, states[i - 1], events[i - 1]);
    }
  }

  /** After a bump, no token that claims an older version passes the gate again. */
  lemma OlderTokenNeverPassesAgain(
    c: Config, states: seq<State>, events: seq<Event>, i: nat, j: nat, u: int, claim: int)
    requires IsRun(c, states, events) && Init(states[0]) && i < j < |events|
    requires events[i].op == Bump(u) && u in states[i].users && claim <= states[i].users[u].authVersion
    requires events[j].op.Gate? && TokenChecked(events[j].op.req)
    requires events[j].op.req.userId == Some(u) && events[j].op.req.claimAv == Some(claim)
    ensures ReplyAt(c, states, events, j).Denied?
  {
    assert StepAt(c, states, events, i);
    VersionsOnlyGrow(c, states, events, i + 1, j, u);
  }

  /** After a bump, no session issued before it ever refreshes again. */
  lemma EarlierSessionNeverRefreshesAgain(c: Config, states: seq<State>, events: seq<Event>, i: nat, j: nat, sid: string)
    requires ValidConfig(c) && IsRun(c, states, events) && Init(states[0]) && i < j < |events|
    requires sid in states[i].rows && events[i].op == Bump(states[i].rows[sid].userId)
    ensures events[j].op.Refresh? ==> !Accepts(events[j], ReplyAt(c, states, events, j), sid)
  {
    EarlierSessionStaysStale(c, states, events, i, j, sid);
    StaleSessionIsRefused(c, states[j], events[j], sid);
  }

  ghost predicate StaleSession(st: State, sid: string) {
    sid in st.rows && st.rows[sid].userId in st.users ==>
      st.users[st.rows[sid].userId].authVersion > st.rows[sid].authVersionAtIssue
  }

  lemma IssuedAtKnownVersion(c: Config, states: seq<State>, events: seq<Event>, i: nat, sid: string)
    requires ValidConfig(c) && IsRun(c, states, events) && Init(states[0]) && i <= |events| && sid in states[i].rows
    ensures
      var row := states[i].rows[sid];
      sid in states[i].issued && row.userId in states[i].users
      && row.authVersionAtIssue <= states[i].users[row.userId].authVersion
  {
    RunKeepsInv(c, states, events, i);
    assert RowInv(c, states[i], sid);
  }

  lemma BumpInRun(c: Config, states: seq<State>, events: seq<Event>, i: nat, u: int)
    requires IsRun(c, states, events) && i < |events| && events[i].op == Bump(u) && u in states[i].users
    ensures u in states[i + 1].users && states[i + 1].users[u].authVersion == states[i].users[u].authVersion + 1
  {
    assert StepAt(c, states, events, i);
  }

  lemma EarlierSessionStaysStale(c: Config, states: seq<State>, events: seq<Event>, i: nat, j: nat, sid: string)
    requires ValidConfig(c) && IsRun(c, states, events) && Init(states[0]) && i < j <= |events|
    requires sid in states[i].rows && events[i].op == Bump(states[i].rows[sid].userId)
    ensures StaleSession(states[j], sid)
  {
    IssuedAtKnownVersion(c, states, events, i, sid);
    var u := states[i].rows[sid].userId;
    BumpInRun(c, states, events, i, u);
    IssueDataIsFixed(c, states, events, i, j, sid);
    VersionsOnlyGrow(c, states, events, i + 1, j, u);
  }

  lemma StaleSessionIsRefused(c: Config, st: State, ev: Event, sid: string)
    requires StaleSession(st, sid)
    ensures ev.op.Refresh? ==> !Accepts(ev, Step(c, st, ev).1, sid)
  {
  }

  /** A session keeps its user and the version it was issued at; a removed session never comes back. */
  lemma {:induction false} IssueDataIsFixed(c: Config, states: seq<State>, events: seq<Event>, i: nat, j: nat, sid: string)
    requires IsRun(c, states, events) && i <= j <= |events|
    requires sid in states[i].rows && sid in states[i].issued
    ensures sid in states[j].rows ==>
              states[j].rows[sid].userId == states[i].rows[sid].userId
              && states[j].rows[sid].authVersionAtIssue == states[i].rows[sid].authVersionAtIssue
    decreases j
  {
    if i < j {
      IssueDataIsFixed(c, states, events, i, j - 1, sid);
      IssuedOnlyGrows(c, states, events, i, j - 1, sid);
      assert StepAt(c, states, events, j - 1);
    }
  }

  /** The access token minted from a successful refresh passes the gate at that same instant. */
  lemma RefreshedTokenPassesGate(c: Config, states: seq<State>, events: seq<Event>, i: nat)
    requires ValidConfig(c) && IsRun(c, states, events) && i < |events|
    requires events[i].op.Refresh?
    requires ReplyAt(c, states, events, i).Rotated? || ReplyAt(c, states, events, i).Graced?
    ensures
      var reply := ReplyAt(c, states, events, i);
      var req := Request(true, false, Cookie, true, Some(reply.userId), Some(reply.authVersion), Some(reply.sid), None);
      GateDecision(states[i + 1], true, req, events[i].now) == Passed
  {
    assert StepAt(c, states, events, i);
  }
}
