/** What holds of a deep search in every interleaving of its workers, sweeps and user. */
module DeepSearchProofs {
  import opened Options
  import opened Sets
  import opened DeepSearch

  /** The configured batch size is clamped into this range before any drain loop sees it. */
  ghost predicate ValidBatch(batch: int) {
    1 <= batch <= MAX_DELETE
  }

  ghost predicate HasStatus(s: State, status: Status) {
    s.row.Some? && s.row.value.status == status
  }

  ghost predicate RunningEmpty(s: State) {
    HasStatus(s, Running) && s.spool == {}
  }

  /** The spool holds the committed query result and nothing else. */
  ghost predicate SpoolExact(s: State) {
    s.committed.Some? && NoDuplicates(s.committed.value) && s.spool == SpoolOf(s.committed.value)
  }

  /** The worker has won the claim and is not done. */
  predicate Owns(pc: Pc) {
    !pc.Idle? && !pc.SawQueued? && !pc.Finished?
  }

  ghost predicate RowInv(s: State) {
    s.row.Some? ==>
      var row := s.row.value;
      match row.status
      case Queued => s.spool == {}
      case Cancelled => s.spool == {}
      case Expired => s.spool == {} && !row.cancelRequested
      case Completed =>
        && !row.cancelRequested && s.committed.Some? && row.matchCount == Some(|s.committed.value|)
        && row.expiresAt.Some? && (s.now < row.expiresAt.value ==> SpoolExact(s))
      case _ => true
  }

  ghost predicate WorkerInv(s: State, pc: Pc) {
    match pc
    case Claimed => RunningEmpty(s)
    case Prepared => RunningEmpty(s)
    case InTx(_) => RunningEmpty(s)
    case Inserted(_, found) => RunningEmpty(s) && NoDuplicates(found)
    case Committing(_, found) => RunningEmpty(s) && NoDuplicates(found)
    case Committed(count) => HasStatus(s, Running) && SpoolExact(s) && count == |s.committed.value|
    case Draining => HasStatus(s, Running)
    case CancelPending(_) => RunningEmpty(s)
    case Announcing(_) => !HasStatus(s, Queued) && !HasStatus(s, Running)
    case Errored(canceled) => if canceled then RunningEmpty(s) else !HasStatus(s, Queued)
    case FailPending => !HasStatus(s, Queued)
    case _ => true
  }

  ghost predicate SweepInv(s: State, sweep: Sweep) {
    match sweep
    case NoSweep => true
    case Expiring => PastExpiry(s)
    case ExpireReady => PastExpiry(s) && s.spool == {}
    case Purging => s.row.Some? ==> Purgeable(s.row.value)
    case PurgeReady => (s.row.Some? ==> Purgeable(s.row.value)) && s.spool == {}
  }

  ghost predicate PastExpiry(s: State) {
    s.row.Some? ==>
      var row := s.row.value;
      || Purgeable(row)
      || (row.status.Completed? && row.expiresAt.Some? && row.expiresAt.value <= s.now)
  }

  ghost predicate Inv(s: State) {
    && RowInv(s)
    && (forall w :: w in s.workers ==> WorkerInv(s, s.workers[w].pc))
    && (forall v, w :: v in s.workers && w in s.workers && Owns(s.workers[v].pc) && Owns(s.workers[w].pc) ==> v == w)
    && (HasStatus(s, Queued) ==> forall w :: w in s.workers ==> !Owns(s.workers[w].pc))
    && (forall k :: k in s.sweeps ==> SweepInv(s, s.sweeps[k]))
  }

  lemma ShortBatchIsTheRest(batch: int, spool: set<SpoolRow>, chosen: set<SpoolRow>)
    requires ValidBatch(batch) && IsBatch(batch, spool, chosen) && |chosen| < batch
    ensures spool - chosen == {}
  {
    if x :| x in spool - chosen {
      SubsetCardinality(chosen, spool - {x});
    }
  }

  /** The step is one worker's own; otherwise it belongs to the user, the clock or a sweep. */
  predicate IsWorkerStep(step: Step) {
    !step.UserCancels? && !step.Tick? && !IsSweepStep(step)
  }

  predicate IsSweepStep(step: Step) {
    step.SweepFinds? || step.StaleFinds? || step.SweepBatch? || step.SweepSettles?
  }

  /** The worker's statements that change the row or the spool. */
  predicate Writes(step: Step) {
    step.Claim? || step.Commit? || step.Complete? || step.DrainBatch? || step.SettleCancelled? || step.SettleFailed?
  }

  lemma OtherStepsOnlyMove(batch: int, s: State, step: Step)
    requires Enabled(batch, s, step) && IsWorkerStep(step) && !Writes(step)
    ensures
      var s' := Apply(batch, s, step);
      s'.row == s.row && s'.spool == s.spool && s'.committed == s.committed && s'.now == s.now
  {
  }

  lemma WriteKeepsRow(batch: int, s: State, step: Step)
    requires RowInv(s) && Enabled(batch, s, step) && Writes(step)
    requires step.w in s.workers && WorkerInv(s, s.workers[step.w].pc)
    ensures RowInv(Apply(batch, s, step))
  {
  }

  lemma WorkerStepKeepsRow(batch: int, s: State, step: Step)
    requires RowInv(s) && Enabled(batch, s, step) && IsWorkerStep(step)
    requires step.w in s.workers && WorkerInv(s, s.workers[step.w].pc)
    ensures RowInv(Apply(batch, s, step))
  {
    if Writes(step) {
      WriteKeepsRow(batch, s, step);
    } else {
      OtherStepsOnlyMove(batch, s, step);
    }
  }

  lemma SweepStepKeepsRow(batch: int, s: State, step: Step)
    requires RowInv(s) && Enabled(batch, s, step) && IsSweepStep(step)
    requires step.k in s.sweeps && SweepInv(s, s.sweeps[step.k])
    ensures RowInv(Apply(batch, s, step))
  {
  }

  /** A step of one worker keeps what its own place promises. */
  lemma OwnStepKeepsWorker(batch: int, s: State, step: Step)
    requires ValidBatch(batch) && RowInv(s) && Enabled(batch, s, step) && IsWorkerStep(step)
    requires step.w in s.workers && WorkerInv(s, s.workers[step.w].pc)
    ensures step.w in Apply(batch, s, step).workers
    ensures WorkerInv(Apply(batch, s, step), Apply(batch, s, step).workers[step.w].pc)
  {
    if step.DrainBatch? && |step.chosen| < batch {
      ShortBatchIsTheRest(batch, s.spool, step.chosen);
    }
  }

  /** Another worker's step keeps it too, because at most one of the two owns the search. */
  lemma OtherStepKeepsWorker(batch: int, s: State, step: Step, w: nat)
    requires RowInv(s) && Enabled(batch, s, step) && IsWorkerStep(step) && step.w != w
    requires w in s.workers && WorkerInv(s, s.workers[w].pc)
    requires step.w in s.workers && WorkerInv(s, s.workers[step.w].pc)
    requires Owns(s.workers[w].pc) ==> !Owns(s.workers[step.w].pc) && !HasStatus(s, Queued)
    ensures w in Apply(batch, s, step).workers && Apply(batch, s, step).workers[w] == s.workers[w]
    ensures WorkerInv(Apply(batch, s, step), s.workers[w].pc)
  {
  }

  /** So does a step of the user, the clock or a sweep. */
  lemma EnvironmentKeepsWorker(batch: int, s: State, step: Step, w: nat)
    requires RowInv(s) && Enabled(batch, s, step) && !IsWorkerStep(step)
    requires IsSweepStep(step) ==> step.k in s.sweeps && SweepInv(s, s.sweeps[step.k])
    requires w in s.workers && WorkerInv(s, s.workers[w].pc)
    ensures w in Apply(batch, s, step).workers && Apply(batch, s, step).workers[w] == s.workers[w]
    ensures WorkerInv(Apply(batch, s, step), s.workers[w].pc)
  {
  }

  /** A worker owns the search after a step only if it did before, or the step is its winning claim. */
  lemma OwnerOrigin(batch: int, s: State, step: Step, w: nat)
    requires Enabled(batch, s, step) && w in Apply(batch, s, step).workers && Owns(Apply(batch, s, step).workers[w].pc)
    ensures w in s.workers
    ensures Owns(s.workers[w].pc) || (step == Claim(w) && HasStatus(s, Queued) && HasStatus(Apply(batch, s, step), Running))
  {
  }

  lemma StillQueued(batch: int, s: State, step: Step)
    requires Enabled(batch, s, step) && HasStatus(Apply(batch, s, step), Queued)
    ensures HasStatus(s, Queued)
  {
  }

  lemma StepKeepsOwner(batch: int, s: State, step: Step)
    requires Inv(s) && Enabled(batch, s, step)
    ensures
      var s' := Apply(batch, s, step);
      && (forall v, w :: v in s'.workers && w in s'.workers && Owns(s'.workers[v].pc) && Owns(s'.workers[w].pc) ==> v == w)
      && (HasStatus(s', Queued) ==> forall w :: w in s'.workers ==> !Owns(s'.workers[w].pc))
  {
    var s' := Apply(batch, s, step);
    forall v, w | v in s'.workers && w in s'.workers && Owns(s'.workers[v].pc) && Owns(s'.workers[w].pc)
      ensures v == w && !HasStatus(s', Queued)
    {
      OwnerOrigin(batch, s, step, v);
      OwnerOrigin(batch, s, step, w);
      if HasStatus(s', Queued) {
        StillQueued(batch, s, step);
      }
    }
  }

  lemma WorkerStepKeepsSweep(batch: int, s: State, step: Step, k: nat)
    requires Enabled(batch, s, step) && IsWorkerStep(step) && step.w in s.workers && WorkerInv(s, s.workers[step.w].pc)
    requires k in s.sweeps && SweepInv(s, s.sweeps[k])
    ensures k in Apply(batch, s, step).sweeps && SweepInv(Apply(batch, s, step), Apply(batch, s, step).sweeps[k])
  {
  }

  lemma SweepStepKeepsSweep(batch: int, s: State, step: Step, k: nat)
    requires ValidBatch(batch) && Enabled(batch, s, step) && IsSweepStep(step)
    requires step.k in s.sweeps && SweepInv(s, s.sweeps[step.k]) && k in s.sweeps && SweepInv(s, s.sweeps[k])
    ensures k in Apply(batch, s, step).sweeps && SweepInv(Apply(batch, s, step), Apply(batch, s, step).sweeps[k])
  {
    if step.SweepBatch? && |step.chosen| < batch {
      ShortBatchIsTheRest(batch, s.spool, step.chosen);
    }
  }

  lemma StepKeepsSweep(batch: int, s: State, step: Step, k: nat)
    requires ValidBatch(batch) && Inv(s) && Enabled(batch, s, step) && k in s.sweeps
    ensures k in Apply(batch, s, step).sweeps && SweepInv(Apply(batch, s, step), Apply(batch, s, step).sweeps[k])
  {
    ActorInv(batch, s, step);
    assert SweepInv(s, s.sweeps[k]);
    if IsWorkerStep(step) {
      WorkerStepKeepsSweep(batch, s, step, k);
    } else if IsSweepStep(step) {
      SweepStepKeepsSweep(batch, s, step, k);
    }
  }

  /** Whoever acts satisfies its own invariant. */
  lemma ActorInv(batch: int, s: State, step: Step)
    requires Inv(s) && Enabled(batch, s, step)
    ensures IsWorkerStep(step) ==> step.w in s.workers && WorkerInv(s, s.workers[step.w].pc)
    ensures IsSweepStep(step) ==> step.k in s.sweeps && SweepInv(s, s.sweeps[step.k])
  {
    ActorExists(batch, s, step);
  }

  lemma ActorExists(batch: int, s: State, step: Step)
    requires Enabled(batch, s, step)
    ensures IsWorkerStep(step) ==> step.w in s.workers
    ensures IsSweepStep(step) ==> step.k in s.sweeps
  {
  }

  lemma NobodyJoinsOrLeaves(batch: int, s: State, step: Step)
    requires IsWorkerStep(step) ==> step.w in s.workers
    requires IsSweepStep(step) ==> step.k in s.sweeps
    ensures Apply(batch, s, step).workers.Keys == s.workers.Keys
    ensures Apply(batch, s, step).sweeps.Keys == s.sweeps.Keys
  {
  }

  lemma StepKeepsRow(batch: int, s: State, step: Step)
    requires Inv(s) && Enabled(batch, s, step)
    ensures RowInv(Apply(batch, s, step))
  {
    ActorInv(batch, s, step);
    if IsWorkerStep(step) {
      WorkerStepKeepsRow(batch, s, step);
    } else if IsSweepStep(step) {
      SweepStepKeepsRow(batch, s, step);
    }
  }

  lemma StepKeepsWorker(batch: int, s: State, step: Step, w: nat)
    requires ValidBatch(batch) && Inv(s) && Enabled(batch, s, step) && w in s.workers
    ensures w in Apply(batch, s, step).workers
    ensures WorkerInv(Apply(batch, s, step), Apply(batch, s, step).workers[w].pc)
  {
    ActorInv(batch, s, step);
    assert WorkerInv(s, s.workers[w].pc);
    if !IsWorkerStep(step) {
      EnvironmentKeepsWorker(batch, s, step, w);
    } else if step.w == w {
      OwnStepKeepsWorker(batch, s, step);
    } else {
      OtherStepKeepsWorker(batch, s, step, w);
    }
  }

  lemma StepKeepsInv(batch: int, s: State, step: Step)
    requires ValidBatch(batch) && Inv(s) && Enabled(batch, s, step)
    ensures Inv(Apply(batch, s, step))
  {
    ActorInv(batch, s, step);
    NobodyJoinsOrLeaves(batch, s, step);
    StepKeepsRow(batch, s, step);
    StepKeepsOwner(batch, s, step);
    forall w | w in s.workers
      ensures WorkerInv(Apply(batch, s, step), Apply(batch, s, step).workers[w].pc)
    {
      StepKeepsWorker(batch, s, step, w);
    }
    forall k | k in s.sweeps
      ensures SweepInv(Apply(batch, s, step), Apply(batch, s, step).sweeps[k])
    {
      StepKeepsSweep(batch, s, step, k);
    }
  }

  lemma {:induction false} RunKeepsInv(batch: int, states: seq<State>, steps: seq<Step>, i: nat)
    requires ValidBatch(batch) && IsRun(batch, states, steps) && Init(states[0]) && i <= |steps|
    ensures Inv(states[i])
  {
    if i > 0 {
      RunKeepsInv(batch, states, steps, i - 1);
      assert StepAt(batch, states, steps, i - 1);
      StepKeepsInv(batch, states[i - 1], steps[i - 1]);
    }
  }

  // ----- what the user sees --------------------------------------------------------------------

  lemma {:induction false} SpoolSize(found: seq<int>)
    ensures |SpoolOf(found)| == |found|
  {
    if found != [] {
      var front := found[..|found| - 1];
      SpoolSize(front);
      var last := SpoolRow(|found|, found[|found| - 1]);
      assert SpoolOf(found) == SpoolOf(front) + {last} by {
        forall x | x in SpoolOf(found)
          ensures x in SpoolOf(front) + {last}
        {
          var k :| 0 <= k < |found| && x == SpoolRow(k + 1, found[k]);
          assert k < |front| ==> front[k] == found[k];
        }
        forall x | x in SpoolOf(front)
          ensures x in SpoolOf(found)
        {
          var k :| 0 <= k < |front| && x == SpoolRow(k + 1, front[k]);
          assert found[k] == front[k];
        }
      }
      assert last !in SpoolOf(front);
    } else {
      assert SpoolOf(found) == {};
    }
  }

  /**
   In every reachable state, a completed search that is not past its expiry has a spool equal to the
   committed query result, without duplicates, a match count equal to its size, and no cancel request.
   */
  lemma CompletedSearchIsExact(batch: int, states: seq<State>, steps: seq<Step>, i: nat)
    requires ValidBatch(batch) && IsRun(batch, states, steps) && Init(states[0]) && i <= |steps|
    requires HasStatus(states[i], Completed)
    ensures
      var row := states[i].row.value;
      && !row.cancelRequested
      && row.expiresAt.Some?
      && (states[i].now < row.expiresAt.value ==>
            && SpoolExact(states[i])
            && row.matchCount == Some(|states[i].spool|))
  {
    RunKeepsInv(batch, states, steps, i);
    SpoolSize(states[i].committed.value);
  }

  /** A cancelled search has an empty spool, whichever cancel point settled it; so does an expired one. */
  lemma CancelledOrExpiredSpoolIsEmpty(batch: int, states: seq<State>, steps: seq<Step>, i: nat)
    requires ValidBatch(batch) && IsRun(batch, states, steps) && Init(states[0]) && i <= |steps|
    requires HasStatus(states[i], Cancelled) || HasStatus(states[i], Expired)
    ensures states[i].spool == {}
  {
    RunKeepsInv(batch, states, steps, i);
  }

  /** Once a worker owns the search, the row is past the queue for good, and only that worker can own it. */
  lemma {:induction false} OwnerStaysTheOnlyOne(batch: int, states: seq<State>, steps: seq<Step>, i: nat, j: nat, v: nat)
    requires ValidBatch(batch) && IsRun(batch, states, steps) && Init(states[0]) && i <= j <= |steps|
    requires v in states[i].workers && Owns(states[i].workers[v].pc)
    ensures !HasStatus(states[j], Queued)
    ensures forall w :: w in states[j].workers && Owns(states[j].workers[w].pc) ==> w == v
    decreases j
  {
    RunKeepsInv(batch, states, steps, i);
    if i < j {
      var k := j - 1;
      OwnerStaysTheOnlyOne(batch, states, steps, i, k, v);
      assert StepAt(batch, states, steps, k);
      if HasStatus(states[j], Queued) {
        StillQueued(batch, states[k], steps[k]);
      }
      forall w | w in states[j].workers && Owns(states[j].workers[w].pc)
        ensures w == v
      {
        OwnerOrigin(batch, states[k], steps[k], w);
      }
    }
  }

  /** At most one worker ever gets past the claim, at whatever times one looks. */
  lemma OnlyOneWorkerOwnsTheSearch(batch: int, states: seq<State>, steps: seq<Step>, i: nat, j: nat, v: nat, w: nat)
    requires ValidBatch(batch) && IsRun(batch, states, steps) && Init(states[0]) && i <= j <= |steps|
    requires v in states[i].workers && Owns(states[i].workers[v].pc)
    requires w in states[j].workers && Owns(states[j].workers[w].pc)
    ensures v == w
  {
    OwnerStaysTheOnlyOne(batch, states, steps, i, j, v);
  }

  lemma CancelFlagStays(batch: int, s: State, step: Step)
    requires Enabled(batch, s, step) && (CancelFlag(s) || s.row.None?)
    ensures CancelFlag(Apply(batch, s, step)) || Apply(batch, s, step).row.None?
  {
  }

  /** A cancel request the store accepted always wins: the search is never completed afterwards. */
  lemma {:induction false} CancelBeatsCompletion(batch: int, states: seq<State>, steps: seq<Step>, i: nat, j: nat)
    requires ValidBatch(batch) && IsRun(batch, states, steps) && Init(states[0]) && i <= j <= |steps|
    requires CancelFlag(states[i]) || states[i].row.None?
    ensures CancelFlag(states[j]) || states[j].row.None?
    ensures !HasStatus(states[j], Completed)
    decreases j
  {
    RunKeepsInv(batch, states, steps, j);
    if i < j {
      CancelBeatsCompletion(batch, states, steps, i, j - 1);
      assert StepAt(batch, states, steps, j - 1);
      CancelFlagStays(batch, states[j - 1], steps[j - 1]);
    }
  }

  /** The worker is at this place, unsignalled, on a running row nobody asked to cancel. */
  ghost predicate Undisturbed(s: State, w: nat, pc: Pc) {
    s.row == Some(Search(Running, false, None, None)) && w in s.workers && s.workers[w] == Worker(pc, false)
  }

  /** The steps of a job nobody interferes with. */
  function JobSteps(w: nat, found: seq<int>, expiresAt: int): seq<Step> {
    [Look(w), Claim(w), CheckBeforeStart(w), Begin(w), InsertDone(w, found), CheckAfterInsert(w),
     Commit(w, Ok, false), Complete(w, expiresAt, Ok)]
  }

  lemma ClaimPhase(batch: int, s: State, w: nat) returns (t: seq<State>)
    requires Init(s) && w in s.workers
    ensures IsRun(batch, t, [Look(w), Claim(w), CheckBeforeStart(w)]) && t[0] == s
    ensures Undisturbed(t[3], w, Prepared) && t[3].spool == {}
  {
    var s1 := Apply(batch, s, Look(w));
    assert s1.workers[w] == Worker(SawQueued, false);
    var s2 := Apply(batch, s1, Claim(w));
    assert Undisturbed(s2, w, Claimed);
    t := [s, s1, s2, Apply(batch, s2, CheckBeforeStart(w))];
  }

  lemma InsertPhase(batch: int, s: State, w: nat, found: seq<int>) returns (t: seq<State>)
    requires Undisturbed(s, w, Prepared) && s.spool == {} && NoDuplicates(found)
    ensures IsRun(batch, t, [Begin(w), InsertDone(w, found), CheckAfterInsert(w)]) && t[0] == s
    ensures Undisturbed(t[3], w, Committing({}, found)) && t[3].spool == {}
  {
    var s1 := Apply(batch, s, Begin(w));
    assert Undisturbed(s1, w, InTx({}));
    var s2 := Apply(batch, s1, InsertDone(w, found));
    assert Undisturbed(s2, w, Inserted({}, found));
    t := [s, s1, s2, Apply(batch, s2, CheckAfterInsert(w))];
  }

  lemma CompletePhase(batch: int, s: State, w: nat, found: seq<int>, expiresAt: int) returns (t: seq<State>)
    requires Undisturbed(s, w, Committing({}, found)) && s.spool == {}
    ensures IsRun(batch, t, [Commit(w, Ok, false), Complete(w, expiresAt, Ok)]) && t[0] == s
    ensures HasStatus(t[2], Completed) && t[2].committed == Some(found) && t[2].spool == SpoolOf(found)
    ensures t[2].row.value.matchCount == Some(|t[2].spool|)
  {
    SpoolSize(found);
    var s1 := Apply(batch, s, Commit(w, Ok, false));
    assert Undisturbed(s1, w, Committed(|found|)) && s1.spool == SpoolOf(found);
    t := [s, s1, Apply(batch, s1, Complete(w, expiresAt, Ok))];
  }

  lemma JoinRuns(batch: int, a: seq<State>, b: seq<State>, x: seq<Step>, y: seq<Step>)
    requires IsRun(batch, a, x) && IsRun(batch, b, y) && a[|x|] == b[0]
    ensures IsRun(batch, a + b[1..], x + y)
  {
    forall i | 0 <= i < |x + y|
      ensures StepAt(batch, a + b[1..], x + y, i)
    {
      if i < |x| {
        assert StepAt(batch, a, x, i);
      } else {
        assert StepAt(batch, b, y, i - |x|);
      }
    }
  }

  /** Left alone, a job can take all its steps, and ends completed with exactly the rows its query found. */
  lemma UndisturbedJobCompletes(batch: int, s: State, w: nat, found: seq<int>, expiresAt: int) returns (states: seq<State>)
    requires Init(s) && w in s.workers && NoDuplicates(found)
    ensures IsRun(batch, states, JobSteps(w, found, expiresAt)) && states[0] == s
    ensures HasStatus(states[8], Completed) && states[8].committed == Some(found) && states[8].spool == SpoolOf(found)
    ensures states[8].row.value.matchCount == Some(|states[8].spool|)
  {
    var a := ClaimPhase(batch, s, w);
    var b := InsertPhase(batch, a[3], w, found);
    var c := CompletePhase(batch, b[3], w, found, expiresAt);
    var x, y := [Look(w), Claim(w), CheckBeforeStart(w)], [Begin(w), InsertDone(w, found), CheckAfterInsert(w)];
    var z := [Commit(w, Ok, false), Complete(w, expiresAt, Ok)];
    JoinRuns(batch, a, b, x, y);
    JoinRuns(batch, a + b[1..], c, x + y, z);
    states := (a + b[1..]) + c[1..];
    assert x + y + z == JobSteps(w, found, expiresAt);
  }

  /**
   Every cancel point settles: once a cancel is requested, the worker's next check leads to a cancelled
   row with an empty spool - before the start, after the insert, after an interrupted statement, or,
   when the commit won, after draining.
   */
  lemma CancelPointSettles(batch: int, s: State, w: nat, expiresAt: int)
    requires Inv(s) && w in s.workers && CancelFlag(s) && HasStatus(s, Running)
    ensures
      var check := match s.workers[w].pc
        case Claimed => CheckBeforeStart(w)
        case Inserted(_, _) => CheckAfterInsert(w)
        case Errored(_) => Catch(w, false)
        case _ => Complete(w, expiresAt, Ok);
      var pc := s.workers[w].pc;
      var s1 := Apply(batch, s, check);
      && (pc.Claimed? || pc.Inserted? || pc == Errored(true) ==>
            HasStatus(Apply(batch, s1, SettleCancelled(w)), Cancelled) && Apply(batch, s1, SettleCancelled(w)).spool == {})
      && (pc.Committed? ==> At(s1, w, Draining) && HasStatus(s1, Running) && CancelFlag(s1))
  {
    assert WorkerInv(s, s.workers[w].pc);
  }

  /** The last, short batch of the worker's drain leads to a cancelled row with an empty spool. */
  lemma DrainedJobSettles(batch: int, s: State, w: nat, chosen: set<SpoolRow>)
    requires ValidBatch(batch) && Inv(s) && Enabled(batch, s, DrainBatch(w, chosen)) && |chosen| < batch
    ensures
      var s1 := Apply(batch, Apply(batch, s, DrainBatch(w, chosen)), SettleCancelled(w));
      HasStatus(s1, Cancelled) && s1.spool == {}
  {
    assert WorkerInv(s, s.workers[w].pc);
    ShortBatchIsTheRest(batch, s.spool, chosen);
  }
}
