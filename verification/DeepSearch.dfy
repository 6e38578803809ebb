/**
 One deep search: its metadata row, its result spool, the workers that were handed its job, the
 retention sweeps and the user. Every await of the worker is a separate step, so the steps of all
 parties interleave freely; a step carries the choices its environment makes (query result, error,
 timeout, batch). The store statements are the row functions at the top.
 */
module DeepSearch {
  import opened Options

  datatype Status = Queued | Running | Completed | Failed | Expired | Cancelled

  datatype Search = Search(status: Status, cancelRequested: bool, matchCount: Option<nat>, expiresAt: Option<int>)

  datatype SpoolRow = SpoolRow(position: nat, item: int)

  /** The upper bound deleteResultsBatch puts on one DELETE. */
  const MAX_DELETE: nat := 200_000

  // ----- store statements ----------------------------------------------------------------------

  predicate Claimable(row: Search) { row.status.Queued? }

  function ClaimRow(row: Search): Search {
    if Claimable(row) then row.(status := Running) else row
  }

  predicate Completable(row: Search) { row.status.Running? && !row.cancelRequested }

  function CompleteRow(row: Search, count: nat, expiresAt: int): Search {
    if Completable(row) then row.(status := Completed, matchCount := Some(count), expiresAt := Some(expiresAt)) else row
  }

  function RequestCancelRow(row: Search): Search {
    match row.status
    case Queued => row.(cancelRequested := true, status := Cancelled)
    case Running => row.(cancelRequested := true)
    case _ => row
  }

  function ExpireRow(row: Search): Search {
    if row.status.Completed? || row.status.Expired? then row.(status := Expired, matchCount := None) else row
  }

  predicate Purgeable(row: Search) {
    row.status.Expired? || row.status.Failed? || row.status.Cancelled?
  }

  /** ROW_NUMBER() over the query result: one spool row per match, numbered from 1. */
  function SpoolOf(found: seq<int>): set<SpoolRow> {
    set k | 0 <= k < |found| :: SpoolRow(k + 1, found[k])
  }

  ghost predicate NoDuplicates(found: seq<int>) {
    forall i, j :: 0 <= i < j < |found| ==> found[i] != found[j]
  }

  function Min(a: int, b: int): int { if a <= b then a else b }

  /** What one deleteResultsBatch call removes: as many rows as the clamped batch size allows. */
  ghost predicate IsBatch(batchSize: int, spool: set<SpoolRow>, chosen: set<SpoolRow>) {
    chosen <= spool && |chosen| == Min(Limit(batchSize), |spool|)
  }

  function Limit(batchSize: int): nat {
    if batchSize < 1 then 1 else if batchSize > MAX_DELETE then MAX_DELETE else batchSize
  }

  // ----- the parties ---------------------------------------------------------------------------

  /** Where a worker is between two awaits. `inTry` tells whether a later error reaches the catch block. */
  datatype Pc =
    | Idle
    | SawQueued
    | Claimed
    | Prepared
    | InTx(deleted: set<SpoolRow>)
    | Inserted(deleted: set<SpoolRow>, found: seq<int>)
    | Committing(deleted: set<SpoolRow>, found: seq<int>)
    | Committed(count: nat)
    | Draining
    | CancelPending(inTry: bool)
    | Announcing(inTry: bool)
    | Errored(canceled: bool)
    | FailPending
    | Finished

  datatype Worker = Worker(pc: Pc, signalled: bool)

  datatype Sweep = NoSweep | Expiring | ExpireReady | Purging | PurgeReady

  datatype State = State(
    row: Option<Search>, spool: set<SpoolRow>, committed: Option<seq<int>>, now: int,
    workers: map<nat, Worker>, sweeps: map<nat, Sweep>)

  /** How COMMIT or the completing UPDATE ended: normally, with no effect, or with the effect but a lost answer. */
  datatype Ack = Ok | NoEffect | Lost

  datatype Step =
    | UserCancels
    | Tick(to: int)
    | Look(w: nat)
    | Claim(w: nat)
    | CheckBeforeStart(w: nat)
    | RevalidationFails(w: nat)
    | Begin(w: nat)
    | WatcherSignals(w: nat)
    | InsertDone(w: nat, found: seq<int>)
    | StatementFails(w: nat, canceled: bool)
    | CheckAfterInsert(w: nat)
    | Commit(w: nat, ack: Ack, canceled: bool)
    | Complete(w: nat, expiresAt: int, ack: Ack)
    | DrainBatch(w: nat, chosen: set<SpoolRow>)
    | SettleCancelled(w: nat)
    | Announce(w: nat)
    | LaterError(w: nat)
    | Catch(w: nat, readFails: bool)
    | SettleFailed(w: nat)
    | Crash(w: nat)
    | SweepFinds(k: nat)
    | StaleFinds(k: nat)
    | SweepBatch(k: nat, chosen: set<SpoolRow>)
    | SweepSettles(k: nat)

  predicate At(s: State, w: nat, pc: Pc) {
    w in s.workers && s.workers[w].pc == pc
  }

  function PcOf(s: State, w: nat): Pc {
    if w in s.workers then s.workers[w].pc else Finished
  }

  function Goto(s: State, w: nat, pc: Pc): State {
    if w in s.workers then s.(workers := s.workers[w := s.workers[w].(pc := pc)]) else s
  }

  predicate CancelFlag(s: State) {
    s.row.Some? && s.row.value.cancelRequested
  }

  function WithStatus(s: State, status: Status): State {
    if s.row.Some? then s.(row := Some(s.row.value.(status := status))) else s
  }

  /** COMMIT of the worker's transaction: its DELETE, then its INSERT. */
  function CommitTx(s: State, deleted: set<SpoolRow>, found: seq<int>): State {
    s.(spool := (s.spool - deleted) + SpoolOf(found), committed := Some(found))
  }

  predicate InTransaction(pc: Pc) {
    pc.InTx? || pc.Inserted? || pc.Committing?
  }

  /** The await can still raise an error that the catch block sees. */
  predicate CatchesErrors(pc: Pc) {
    InTransaction(pc) || pc.Committed? || pc.Draining? || (pc.CancelPending? && pc.inTry) || (pc.Announcing? && pc.inTry)
  }

  ghost predicate Enabled(batch: int, s: State, step: Step) {
    match step
    case UserCancels => s.row.Some?
    case Tick(to) => s.now <= to
    case Look(w) => At(s, w, Idle)
    case Claim(w) => At(s, w, SawQueued)
    case CheckBeforeStart(w) => At(s, w, Claimed)
    case RevalidationFails(w) => At(s, w, Prepared)
    case Begin(w) => At(s, w, Prepared)
    case WatcherSignals(w) => w in s.workers && CatchesErrors(s.workers[w].pc) && CancelFlag(s)
    case InsertDone(w, found) => PcOf(s, w).InTx? && NoDuplicates(found)
    case StatementFails(w, _) => InTransaction(PcOf(s, w)) || At(s, w, Prepared)
    case CheckAfterInsert(w) => PcOf(s, w).Inserted?
    case Commit(w, _, _) => PcOf(s, w).Committing?
    case Complete(w, _, _) => PcOf(s, w).Committed?
    case DrainBatch(w, chosen) => At(s, w, Draining) && IsBatch(batch, s.spool, chosen)
    case SettleCancelled(w) => PcOf(s, w).CancelPending?
    case Announce(w) => PcOf(s, w).Announcing?
    case LaterError(w) => w in s.workers && CatchesErrors(s.workers[w].pc) && !InTransaction(s.workers[w].pc)
    case Catch(w, _) => PcOf(s, w).Errored?
    case SettleFailed(w) => At(s, w, FailPending)
    case Crash(w) => w in s.workers
    case SweepFinds(k) =>
      k in s.sweeps && s.sweeps[k].NoSweep? && s.row.Some? && s.row.value.status.Completed?
      && s.row.value.expiresAt.Some? && s.row.value.expiresAt.value <= s.now
    case StaleFinds(k) => k in s.sweeps && s.sweeps[k].NoSweep? && s.row.Some? && Purgeable(s.row.value)
    case SweepBatch(k, chosen) =>
      k in s.sweeps && (s.sweeps[k].Expiring? || s.sweeps[k].Purging?) && IsBatch(batch, s.spool, chosen)
    case SweepSettles(k) => k in s.sweeps && (s.sweeps[k].ExpireReady? || s.sweeps[k].PurgeReady?)
  }

  function Apply(batch: int, s: State, step: Step): State {
    match step
    case UserCancels => if s.row.Some? then s.(row := Some(RequestCancelRow(s.row.value))) else s
    case Tick(to) => s.(now := to)
    case Look(w) => Goto(s, w, if s.row.Some? && s.row.value.status.Queued? then SawQueued else Finished)
    case Claim(w) =>
      if s.row.Some? && Claimable(s.row.value) then Goto(s.(row := Some(ClaimRow(s.row.value))), w, Claimed)
      else Goto(s, w, Finished)
    case CheckBeforeStart(w) => Goto(s, w, if CancelFlag(s) then CancelPending(false) else Prepared)
    case RevalidationFails(w) => Goto(s, w, FailPending)
    case Begin(w) => Goto(s, w, InTx(s.spool))
    case WatcherSignals(w) =>
      if w in s.workers then s.(workers := s.workers[w := s.workers[w].(signalled := true)]) else s
    case InsertDone(w, found) => if PcOf(s, w).InTx? then Goto(s, w, Inserted(PcOf(s, w).deleted, found)) else s
    case StatementFails(w, canceled) => Goto(s, w, Errored(canceled))
    case CheckAfterInsert(w) =>
      if PcOf(s, w).Inserted? then
        Goto(s, w, if s.workers[w].signalled || CancelFlag(s) then CancelPending(true)
                   else Committing(PcOf(s, w).deleted, PcOf(s, w).found))
      else s
    case Commit(w, ack, canceled) =>
      if PcOf(s, w).Committing? then
        var deleted, found := PcOf(s, w).deleted, PcOf(s, w).found;
        match ack
        case Ok => Goto(CommitTx(s, deleted, found), w, Committed(|found|))
        case NoEffect => Goto(s, w, Errored(canceled))
        case Lost => Goto(CommitTx(s, deleted, found), w, Errored(false))
      else s
    case Complete(w, expiresAt, ack) =>
      if PcOf(s, w).Committed? && s.row.Some? then
        var row' := CompleteRow(s.row.value, PcOf(s, w).count, expiresAt);
        match ack
        case Ok => Goto(s.(row := Some(row')), w, if Completable(s.row.value) then Announcing(true) else Draining)
        case NoEffect => Goto(s, w, Errored(false))
        case Lost => Goto(s.(row := Some(row')), w, Errored(false))
      else Goto(s, w, Draining)
    case DrainBatch(w, chosen) =>
      Goto(s.(spool := s.spool - chosen), w, if |chosen| < batch then CancelPending(true) else Draining)
    case SettleCancelled(w) =>
      if PcOf(s, w).CancelPending? then Goto(WithStatus(s, Cancelled), w, Announcing(PcOf(s, w).inTry)) else s
    case Announce(w) => Goto(s, w, Finished)
    case LaterError(w) => Goto(s, w, Errored(false))
    case Catch(w, readFails) =>
      if PcOf(s, w).Errored? then
        var settle := PcOf(s, w).canceled && (s.workers[w].signalled || (!readFails && CancelFlag(s)));
        Goto(s, w, if settle then CancelPending(false) else FailPending)
      else s
    case SettleFailed(w) => Goto(WithStatus(s, Failed), w, Finished)
    case Crash(w) => Goto(s, w, Finished)
    case SweepFinds(k) => s.(sweeps := s.sweeps[k := Expiring])
    case StaleFinds(k) => s.(sweeps := s.sweeps[k := Purging])
    case SweepBatch(k, chosen) =>
      var sweep := if k in s.sweeps then s.sweeps[k] else NoSweep;
      s.(spool := s.spool - chosen,
         sweeps := s.sweeps[k := if |chosen| < batch then (if sweep.Expiring? then ExpireReady else PurgeReady) else sweep])
    case SweepSettles(k) =>
      var sweep := if k in s.sweeps then s.sweeps[k] else NoSweep;
      var s' := s.(sweeps := s.sweeps[k := NoSweep]);
      if s.row.None? then s'
      else if sweep.ExpireReady? then s'.(row := Some(ExpireRow(s.row.value)))
      else if Purgeable(s.row.value) then s'.(row := None)
      else s'
  }

  /** A freshly created search: queued, nothing spooled, every job still to look at it. */
  ghost predicate Init(s: State) {
    && s.row == Some(Search(Queued, false, None, None))
    && s.spool == {} && s.committed.None?
    && (forall w :: w in s.workers ==> s.workers[w] == Worker(Idle, false))
    && (forall k :: k in s.sweeps ==> s.sweeps[k].NoSweep?)
  }

  ghost predicate IsRun(batch: int, states: seq<State>, steps: seq<Step>) {
    && |states| == |steps| + 1
    && forall i :: 0 <= i < |steps| ==> StepAt(batch, states, steps, i)
  }

  ghost predicate StepAt(batch: int, states: seq<State>, steps: seq<Step>, i: nat)
    requires i < |steps| < |states|
  {
    Enabled(batch, states[i], steps[i]) && states[i + 1] == Apply(batch, states[i], steps[i])
  }
}
