/** Where the statements and steps around a deep search lead: cancels, failures, completion, expiry and removal. */
module DeepSearchAnswers {
  import opened Options
  import opened DeepSearch
  import opened DeepSearchProofs

  // ----- cancelling ----------------------------------------------------------------------------

  /** A cancel is recorded on a queued or running search; a queued one is cancelled at once, others are left alone. */
  lemma CancelIsRecorded(batch: int, s: State)
    requires Enabled(batch, s, UserCancels)
    ensures
      var row, s' := s.row.value, Apply(batch, s, UserCancels);
      && s'.row.Some? && s'.spool == s.spool && s'.workers == s.workers
      && (row.status.Queued? ==> CancelFlag(s') && HasStatus(s', Cancelled))
      && (row.status.Running? ==> CancelFlag(s') && HasStatus(s', Running))
      && (!row.status.Queued? && !row.status.Running? ==> s'.row == s.row)
      && s'.row.value.matchCount == row.matchCount && s'.row.value.expiresAt == row.expiresAt
  {
  }

  /** A user who cancels a queued or running search never sees it completed, whatever else happens. */
  lemma CancelledSearchNeverCompletes(batch: int, states: seq<State>, steps: seq<Step>, i: nat, j: nat)
    requires ValidBatch(batch) && IsRun(batch, states, steps) && Init(states[0]) && i < j <= |steps|
    requires steps[i] == UserCancels && (HasStatus(states[i], Queued) || HasStatus(states[i], Running))
    ensures !HasStatus(states[j], Completed)
  {
    assert StepAt(batch, states, steps, i);
    CancelIsRecorded(batch, states[i]);
    CancelBeatsCompletion(batch, states, steps, i + 1, j);
  }

  /** The watcher's signal is remembered by its worker and changes nothing else by itself. */
  lemma SignalIsRemembered(batch: int, s: State, w: nat)
    requires Enabled(batch, s, WatcherSignals(w))
    ensures
      var s' := Apply(batch, s, WatcherSignals(w));
      && s' == s.(workers := s'.workers) && s'.workers == s.workers[w := Worker(s.workers[w].pc, true)]
  {
  }

  /** A finished INSERT is discarded exactly when a cancel was signalled or shows on the row. */
  lemma CheckAfterInsertDecides(batch: int, s: State, w: nat, deleted: set<SpoolRow>, found: seq<int>)
    requires At(s, w, Inserted(deleted, found))
    ensures
      var s', cancel := Apply(batch, s, CheckAfterInsert(w)), s.workers[w].signalled || CancelFlag(s);
      && s'.row == s.row && s'.spool == s.spool
      && (cancel ==> At(s', w, CancelPending(true))) && (!cancel ==> At(s', w, Committing(deleted, found)))
  {
  }

  // ----- failing -------------------------------------------------------------------------------

  /** An error inside the transaction or before it leaves the tables alone; the catch block then decides. */
  lemma ErrorLeavesTables(batch: int, s: State, w: nat, canceled: bool)
    requires Enabled(batch, s, StatementFails(w, canceled))
    ensures
      var s' := Apply(batch, s, StatementFails(w, canceled));
      At(s', w, Errored(canceled)) && s'.row == s.row && s'.spool == s.spool && s'.workers[w].signalled == s.workers[w].signalled
  {
  }

  /**
   The catch block settles as cancelled exactly when the statement was cancelled (SQLSTATE 57014) and either
   the watcher had signalled or the row shows the request; a timeout nobody asked for and every other error
   end failed.
   */
  lemma CatchDecides(batch: int, s: State, w: nat, canceled: bool, readFails: bool)
    requires At(s, w, Errored(canceled)) && s.row.Some?
    ensures
      var s1 := Apply(batch, s, Catch(w, readFails));
      var ours := canceled && (s.workers[w].signalled || (CancelFlag(s) && !readFails));
      && s1.row == s.row && s1.spool == s.spool
      && (ours <==> At(s1, w, CancelPending(false)))
      && (ours ==> HasStatus(Apply(batch, s1, SettleCancelled(w)), Cancelled))
      && (!ours ==> At(s1, w, FailPending) && HasStatus(Apply(batch, s1, SettleFailed(w)), Failed))
      && (!ours ==> At(Apply(batch, s1, SettleFailed(w)), w, Finished))
  {
  }

  /** A job whose statement fails, with no cancel requested, ends as a failed search with nothing spooled. */
  lemma FailureEndsFailed(batch: int, s: State, w: nat, canceled: bool, readFails: bool)
    requires Inv(s) && HasStatus(s, Running) && !CancelFlag(s) && w in s.workers && !s.workers[w].signalled
    requires InTransaction(s.workers[w].pc) || s.workers[w].pc.Prepared?
    ensures
      var s1 := Apply(batch, s, StatementFails(w, canceled));
      var s2 := Apply(batch, s1, Catch(w, readFails));
      var s3 := Apply(batch, s2, SettleFailed(w));
      && Enabled(batch, s, StatementFails(w, canceled)) && Enabled(batch, s1, Catch(w, readFails))
      && Enabled(batch, s2, SettleFailed(w)) && HasStatus(s3, Failed) && s3.spool == {}
  {
    assert WorkerInv(s, s.workers[w].pc);
    ErrorLeavesTables(batch, s, w, canceled);
    CatchDecides(batch, Apply(batch, s, StatementFails(w, canceled)), w, canceled, readFails);
  }

  /** A stored query that no longer parses fails the search before anything is spooled. */
  lemma RevalidationEndsFailed(batch: int, s: State, w: nat)
    requires Inv(s) && At(s, w, Prepared) && s.row.Some?
    ensures
      var s1 := Apply(batch, s, RevalidationFails(w));
      At(s1, w, FailPending) && HasStatus(Apply(batch, s1, SettleFailed(w)), Failed) && Apply(batch, s1, SettleFailed(w)).spool == {}
  {
    assert WorkerInv(s, s.workers[w].pc);
  }

  /** A search fails, or is cancelled by a worker, only through the settling steps: nothing else ends it so. */
  lemma OnlySettlingFails(batch: int, s: State, step: Step)
    requires Enabled(batch, s, step) && s.row.Some? && Apply(batch, s, step).row.Some?
    ensures HasStatus(Apply(batch, s, step), Failed) && !HasStatus(s, Failed) ==> step.SettleFailed?
    ensures HasStatus(Apply(batch, s, step), Cancelled) && !HasStatus(s, Cancelled) ==>
              step.SettleCancelled? || (step.UserCancels? && HasStatus(s, Queued))
  {
  }

  // ----- completing ----------------------------------------------------------------------------

  /** A search completes only out of a committed transaction, with that count and the expiry computed for it. */
  lemma CompletionStores(batch: int, s: State, step: Step)
    requires Enabled(batch, s, step) && !HasStatus(s, Completed) && HasStatus(Apply(batch, s, step), Completed)
    ensures step.Complete? && step.w in s.workers && s.workers[step.w].pc.Committed? && HasStatus(s, Running) && !CancelFlag(s)
    ensures Apply(batch, s, step).row ==
              Some(Search(Completed, false, Some(s.workers[step.w].pc.count), Some(step.expiresAt)))
  {
  }

  /** COMMIT replaces the rows the transaction deleted by the numbered matches; without effect it changes nothing. */
  lemma CommitSpools(batch: int, s: State, w: nat, ack: Ack, canceled: bool)
    requires Enabled(batch, s, Commit(w, ack, canceled))
    ensures
      var pc, s' := s.workers[w].pc, Apply(batch, s, Commit(w, ack, canceled));
      && s'.row == s.row
      && (ack == NoEffect ==> s'.spool == s.spool && At(s', w, Errored(canceled)))
      && (ack != NoEffect ==> s'.spool == (s.spool - pc.deleted) + SpoolOf(pc.found))
      && (ack == Ok ==> At(s', w, Committed(|pc.found|))) && (ack == Lost ==> At(s', w, Errored(false)))
  {
  }

  /** A completion that does not take effect leads to the drain when refused, and to the catch block when it fails. */
  lemma CompletionLeads(batch: int, s: State, w: nat, expiresAt: int, ack: Ack)
    requires Enabled(batch, s, Complete(w, expiresAt, ack)) && s.row.Some?
    ensures
      var s', may := Apply(batch, s, Complete(w, expiresAt, ack)), HasStatus(s, Running) && !CancelFlag(s);
      && s'.spool == s.spool
      && (ack == Ok ==> At(s', w, if may then Announcing(true) else Draining)) && (ack != Ok ==> At(s', w, Errored(false)))
      && (ack == NoEffect || !may ==> s'.row == s.row)
      && (ack != NoEffect && may ==> HasStatus(s', Completed))
  {
  }

  /** An error after the COMMIT, even in announcing a completed search, ends failed: it cannot be a cancel. */
  lemma LateErrorEndsFailed(batch: int, s: State, w: nat, readFails: bool)
    requires Enabled(batch, s, LaterError(w)) && s.row.Some?
    ensures
      var s1 := Apply(batch, s, LaterError(w));
      var s2 := Apply(batch, s1, Catch(w, readFails));
      HasStatus(Apply(batch, s2, SettleFailed(w)), Failed) && At(s2, w, FailPending) && s2.spool == s.spool
  {
  }

  /** A worker that finds the search taken does nothing. */
  lemma LoserDoesNothing(batch: int, s: State, w: nat)
    requires w in s.workers && !HasStatus(s, Queued)
    ensures At(s, w, Idle) ==> Apply(batch, s, Look(w)) == Goto(s, w, Finished)
    ensures At(s, w, SawQueued) ==> Apply(batch, s, Claim(w)) == Goto(s, w, Finished)
  {
  }

  /** Before its COMMIT a worker leaves the spool alone, and a COMMIT without effect changes nothing. */
  lemma OnlyCommitSpools(batch: int, s: State, step: Step, x: SpoolRow)
    requires Enabled(batch, s, step) && x in Apply(batch, s, step).spool && x !in s.spool
    ensures step.Commit? && !step.ack.NoEffect? && step.w in s.workers && s.workers[step.w].pc.Committing?
    ensures x in SpoolOf(s.workers[step.w].pc.found)
  {
  }

  /** The spool numbers the matches from 1 in their order. */
  lemma SpoolIsNumbered(found: seq<int>, x: SpoolRow)
    ensures x in SpoolOf(found) <==> 1 <= x.position <= |found| && x.item == found[x.position - 1]
  {
    if 1 <= x.position <= |found| && x.item == found[x.position - 1] {
      assert x == SpoolRow((x.position - 1) + 1, found[x.position - 1]);
    }
  }

  // ----- expiring and removing -----------------------------------------------------------------

  /** A search turns expired only when completed and past its expiry; it keeps no count. */
  lemma {:induction false} ExpiresOnlyPastExpiry(batch: int, states: seq<State>, steps: seq<Step>, i: nat)
    requires ValidBatch(batch) && IsRun(batch, states, steps) && Init(states[0]) && i < |steps|
    requires !HasStatus(states[i], Expired) && HasStatus(states[i + 1], Expired)
    ensures HasStatus(states[i], Completed) && states[i].row.value.expiresAt.Some?
    ensures states[i].row.value.expiresAt.value <= states[i].now && states[i + 1].row.value.matchCount.None?
  {
    RunKeepsInv(batch, states, steps, i);
    assert StepAt(batch, states, steps, i);
    ActorInv(batch, states[i], steps[i]);
  }

  /** A sweep that has drained its search ends it: past its expiry it turns expired, and when long over it is removed. */
  lemma SweepEnds(batch: int, s: State, k: nat)
    requires k in s.sweeps && s.row.Some?
    ensures s.sweeps[k] == ExpireReady && HasStatus(s, Completed) ==>
              Apply(batch, s, SweepSettles(k)).row == Some(Search(Expired, s.row.value.cancelRequested, None, s.row.value.expiresAt))
    ensures s.sweeps[k] == PurgeReady && s.row.value.status in {Expired, Failed, Cancelled} ==>
              Apply(batch, s, SweepSettles(k)).row == None
    ensures s.sweeps[k] == PurgeReady && s.row.value.status !in {Expired, Failed, Cancelled} ==>
              Apply(batch, s, SweepSettles(k)).row == s.row
    ensures Apply(batch, s, SweepSettles(k)).spool == s.spool && Apply(batch, s, SweepSettles(k)).workers == s.workers
  {
  }

  /** A sweep's batch takes exactly its rows, and a short one is its last. */
  lemma SweepBatchTakes(batch: int, s: State, k: nat, chosen: set<SpoolRow>)
    requires Enabled(batch, s, SweepBatch(k, chosen))
    ensures
      var s' := Apply(batch, s, SweepBatch(k, chosen));
      && s'.spool == s.spool - chosen && s'.row == s.row && k in s'.sweeps
      && s'.sweeps[k] == if |chosen| >= batch then s.sweeps[k] else if s.sweeps[k].Expiring? then ExpireReady else PurgeReady
  {
  }

  /** A row disappears only when its search was expired, failed or cancelled, and with nothing left in the spool. */
  lemma RemovedOnlyWhenOver(batch: int, states: seq<State>, steps: seq<Step>, i: nat)
    requires ValidBatch(batch) && IsRun(batch, states, steps) && Init(states[0]) && i < |steps|
    requires states[i].row.Some? && states[i + 1].row.None?
    ensures HasStatus(states[i], Expired) || HasStatus(states[i], Failed) || HasStatus(states[i], Cancelled)
    ensures states[i + 1].spool == {}
  {
    RunKeepsInv(batch, states, steps, i);
    assert StepAt(batch, states, steps, i);
    ActorInv(batch, states[i], steps[i]);
  }
}
