/** The session store as the code runs it: tables updated in place, one method per exported function. */
module SessionTables {
  import opened Options
  import opened Sessions

  class SessionStore {
    const cfg: Config
    var users: map<int, User>
    var rows: map<string, Session>
    var nextId: nat
    ghost var issued: map<string, seq<string>>
    ghost var knownUsers: set<int>

    constructor (cfg: Config, users: map<int, User>)
      ensures this.cfg == cfg && this.users == users && Init(Abstract())
    {
      this.cfg, this.users, this.rows, this.nextId := cfg, users, map[], 1;
      issued, knownUsers := map[], users.Keys;
    }

    ghost function Abstract(): State
      reads this
    {
      State(users, rows, nextId, issued, knownUsers)
    }

    method CreateSession(now: int, sid: string, secret: string, userId: int, authVersion: int) returns (reply: Reply)
      requires Enabled(cfg, Abstract(), Event(now, Create(sid, secret, userId, authVersion)))
      modifies this`rows, this`nextId, this`issued
      ensures (Abstract(), reply) == Step(cfg, old(Abstract()), Event(now, Create(sid, secret, userId, authVersion)))
    {
      var row := Session(nextId, userId, Sha256(secret), None, now, authVersion, now, now,
                         now + cfg.idleMs, now + cfg.absoluteMs, None, None);
      rows := rows[sid := row];
      nextId := nextId + 1;
      issued := issued[sid := [secret]];
      reply := Created(Token(sid, secret));
    }

    method ValidateAccessSession(now: int, sid: string) returns (reply: Reply)
      ensures (Abstract(), reply) == Step(cfg, Abstract(), Event(now, Validate(sid)))
      ensures reply.Valid? <==> sid != "" && sid in rows && Live(rows[sid], now)
    {
      if sid == "" {
        return Refused(Missing);
      }
      if sid !in rows {
        return Refused(NotFound);
      }
      var row := rows[sid];
      if row.revokedAt.Some? {
        return Refused(WasRevoked);
      }
      if row.absoluteExpiresAt <= now {
        return Refused(AbsoluteExpired);
      }
      if row.idleExpiresAt <= now {
        return Refused(IdleExpired);
      }
      return Valid(row.userId);
    }

    method TouchActivity(now: int, sid: string) returns (reply: Reply)
      modifies this`rows
      ensures (Abstract(), reply) == Step(cfg, old(Abstract()), Event(now, Touch(sid)))
    {
      var minUpdateCutoff := now - cfg.activityMinUpdateMs;
      if sid in rows {
        var row := rows[sid];
        if row.revokedAt.None? && row.absoluteExpiresAt > now && row.idleExpiresAt > now
           && row.lastActivityAt <= minUpdateCutoff
        {
          rows := rows[sid := row.(lastActivityAt := now, idleExpiresAt := now + cfg.idleMs)];
          return Touched(true);
        }
      }
      return Touched(false);
    }

    /** The UPDATE both revocation paths share; an existing time and reason are kept. */
    method RevokeWithin(sid: string, reason: RevokeReason, now: int)
      requires sid in rows
      modifies this`rows
      ensures rows == old(rows)[sid := RevokeRow(old(rows)[sid], reason, now)]
    {
      var row := rows[sid];
      rows := rows[sid := row.(revokedAt := Coalesce(row.revokedAt, Some(now)),
                               revokedReason := Coalesce(row.revokedReason, Some(reason)))];
    }

    method RotateRefresh(now: int, raw: string, nextSecret: string) returns (reply: Reply)
      requires Enabled(cfg, Abstract(), Event(now, Refresh(raw, nextSecret)))
      modifies this`rows, this`issued
      ensures (Abstract(), reply) == Step(cfg, old(Abstract()), Event(now, Refresh(raw, nextSecret)))
    {
      var parsed := ParseRefreshToken(raw);
      if parsed.None? {
        return Refused(Malformed);
      }
      var (sid, secret) := parsed.value;
      if sid !in rows || rows[sid].userId !in users {
        return Refused(NotFound);
      }
      var row := rows[sid];
      if row.revokedAt.Some? {
        return Refused(WasRevoked);
      }
      if row.absoluteExpiresAt <= now {
        RevokeWithin(sid, AbsoluteTimeout, now);
        return Refused(AbsoluteExpired);
      }
      if row.idleExpiresAt <= now {
        RevokeWithin(sid, IdleTimeout, now);
        return Refused(IdleExpired);
      }
      var presentedHash := Sha256(secret);
      var matchesCurrent := presentedHash == row.currentHash;
      var withinGrace :=
        row.prevHash.Some? && now - row.rotatedAt <= cfg.refreshGraceMs && presentedHash == row.prevHash.value;
      if !matchesCurrent && !withinGrace {
        RevokeWithin(sid, RefreshReuse, now);
        return Refused(Reuse);
      }
      var user := users[row.userId];
      if user.passive {
        RevokeWithin(sid, UserDisabled, now);
        return Refused(Disabled);
      }
      if user.authVersion != row.authVersionAtIssue {
        RevokeWithin(sid, AuthVersionChanged, now);
        return Refused(StaleVersion);
      }
      if withinGrace && !matchesCurrent {
        return Graced(sid, row.userId, user.authVersion);
      }
      rows := rows[sid := row.(prevHash := Some(row.currentHash), currentHash := Sha256(nextSecret), rotatedAt := now)];
      issued := issued[sid := IssuedTo(Abstract(), sid) + [nextSecret]];
      return Rotated(sid, row.userId, Token(sid, nextSecret), user.authVersion);
    }

    method RevokeSession(now: int, sid: string, reason: Option<RevokeReason>) returns (reply: Reply)
      modifies this`rows
      ensures (Abstract(), reply) == Step(cfg, old(Abstract()), Event(now, Revoke(sid, reason)))
    {
      if sid in rows && rows[sid].revokedAt.None? {
        RevokeWithin(sid, ReasonOr(reason, Logout), now);
        return RevokedOne(true);
      }
      return RevokedOne(false);
    }

    /** One UPDATE per still-active row of the user. */
    method RevokeAllForUser(now: int, userId: int, reason: Option<RevokeReason>) returns (reply: Reply)
      modifies this`rows
      ensures (Abstract(), reply) == Step(cfg, old(Abstract()), Event(now, RevokeUser(userId, reason)))
    {
      var active := ActiveSessionsOf(rows, userId);
      var pending := active;
      while pending != {}
        invariant pending <= active && rows.Keys == old(rows).Keys
        invariant forall sid :: sid in rows ==>
                    rows[sid] == if sid in active - pending then RevokeRow(old(rows)[sid], ReasonOr(reason, RevokeAll), now)
                                 else old(rows)[sid]
        decreases pending
      {
        var sid :| sid in pending;
        RevokeWithin(sid, ReasonOr(reason, RevokeAll), now);
        pending := pending - {sid};
      }
      forall sid | sid in rows
        ensures rows[sid] == RevokeAllRows(old(rows), userId, ReasonOr(reason, RevokeAll), now)[sid]
      {
        assert sid in active <==> old(rows)[sid].userId == userId && old(rows)[sid].revokedAt.None?;
      }
      assert rows == RevokeAllRows(old(rows), userId, ReasonOr(reason, RevokeAll), now);
      return RevokedMany(|active|);
    }

    /** One bounded DELETE: the terminal rows with the lowest ids. */
    method CleanupSessions(now: int, batchSize: int) returns (reply: Reply, chosen: set<string>)
      modifies this`rows
      ensures IsCleanupBatch(old(rows), Cutoff(cfg, now), EffectiveBatch(batchSize), chosen)
      ensures (Abstract(), reply) == Step(cfg, old(Abstract()), Event(now, Cleanup(batchSize, chosen)))
    {
      chosen := SelectBatch(Cutoff(cfg, now), EffectiveBatch(batchSize));
      rows := rows - chosen;
      reply := Deleted(|chosen|);
    }

    /** SELECT id ... ORDER BY id LIMIT n over the terminal rows. */
    method SelectBatch(cutoff: int, n: int) returns (chosen: set<string>)
      requires n >= 0
      ensures IsCleanupBatch(rows, cutoff, n, chosen)
    {
      var pending := TerminalIds(rows, cutoff);
      chosen := {};
      while |chosen| < n && pending != {}
        invariant chosen !! pending && chosen + pending == TerminalIds(rows, cutoff) && |chosen| <= n
        invariant forall a, b :: a in chosen && b in pending ==> rows[a].id <= rows[b].id
        decreases pending
      {
        var sid := LowestId(pending);
        pending, chosen := pending - {sid}, chosen + {sid};
      }
      assert TerminalIds(rows, cutoff) - chosen == pending;
    }

    method LowestId(ids: set<string>) returns (lowest: string)
      requires ids != {} && ids <= rows.Keys
      ensures lowest in ids && forall sid :: sid in ids ==> rows[lowest].id <= rows[sid].id
    {
      lowest :| lowest in ids;
      var rest := ids - {lowest};
      while rest != {}
        invariant rest <= ids && lowest in ids
        invariant forall sid :: sid in ids - rest ==> rows[lowest].id <= rows[sid].id
        decreases rest
      {
        var sid :| sid in rest;
        if rows[sid].id < rows[lowest].id {
          lowest := sid;
        }
        rest := rest - {sid};
      }
    }

    method BumpAuthVersion(userId: int) returns (version: Option<int>)
      modifies this`users
      ensures forall now :: (Abstract(), Bumped(version)) == Step(cfg, old(Abstract()), Event(now, Bump(userId)))
    {
      if userId !in users {
        return None;
      }
      var v := users[userId].authVersion + 1;
      users := users[userId := users[userId].(authVersion := v)];
      return Some(v);
    }

    method AuthVersionGate(now: int, sessionEnforced: bool, req: Request) returns (reply: Reply)
      ensures reply == GateDecision(Abstract(), sessionEnforced, req, now)
      ensures SessionChecked(sessionEnforced, req) && reply == Passed ==>
                req.sid.Some? && req.sid.value in rows && Live(rows[req.sid.value], now)
                && req.userId == Some(rows[req.sid.value].userId)
    {
      if !req.apiPath || req.logoutPost || req.via.Ingest? || req.via.ApiKey? || !req.hasUser {
        return Passed;
      }
      if req.userId.None? || req.claimAv.None? {
        return Denied(Unauthorized);
      }
      var enforceSession := sessionEnforced && req.via.Cookie?;
      if enforceSession && (req.sid.None? || req.sid.value == "") {
        return Denied(Unauthorized);
      }
      if req.via.Bearer? {
        if req.exp.None? {
          return Denied(Unauthorized);
        }
        if req.exp.value * 1000 <= now {
          return Denied(TokenExpired);
        }
      }
      if req.userId.value !in users {
        return Denied(Unauthorized);
      }
      var user := users[req.userId.value];
      if user.passive || user.authVersion != req.claimAv.value {
        return Denied(Unauthorized);
      }
      if enforceSession {
        var sid := req.sid.value;
        if sid !in rows || rows[sid].userId != req.userId.value || rows[sid].revokedAt.Some? {
          return Denied(Unauthorized);
        }
        if rows[sid].absoluteExpiresAt <= now {
          return Denied(SessionExpiredAbsolute);
        }
        if rows[sid].idleExpiresAt <= now {
          return Denied(SessionExpiredIdle);
        }
      }
      return Passed;
    }
  }
}
