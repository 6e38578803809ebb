/** What holds of catalog linking under every interleaving of requests and other writers. */
module CatalogLinkingProofs {
  import opened Options
  import opened Sets
  import opened CatalogLinking

  // ----- locks ---------------------------------------------------------------------------------

  /** Each advisory lock has at most one holder, and a place in the transaction fits the request. */
  ghost predicate LockInv(s: State) {
    && (forall p, q :: p in s.procs && q in s.procs && ShareCreateLock(s.procs[p], s.procs[q]) ==> p == q)
    && (forall p, q :: p in s.procs && q in s.procs && ShareLabelLock(s.procs[p], s.procs[q]) ==> p == q)
    && (forall p :: p in s.procs ==> PlaceFits(s.procs[p]))
  }

  predicate ShareCreateLock(p: Proc, q: Proc) {
    HoldsCreateLock(p) && HoldsCreateLock(q) && p.req.target.kind == q.req.target.kind
  }

  predicate ShareLabelLock(p: Proc, q: Proc) {
    HoldsLabelLock(p) && HoldsLabelLock(q) && p.req.target == q.req.target
  }

  predicate PlaceFits(p: Proc) {
    && (p.pc.HasCreateLock? || p.pc.ReadyToInsert? || p.pc.InsertedRow? ==> p.req.mode.CreateNew?)
    && (p.pc.ReadyToLink? ==> p.req.mode.LinkTo?)
  }

  /** A step moves at most one request, and never changes what a request asks for. */
  lemma OnlyTheActorMoves(s: State, step: Step)
    requires Enabled(s, step)
    ensures Apply(s, step).procs.Keys == s.procs.Keys
    ensures forall q :: q in s.procs ==> Apply(s, step).procs[q].req == s.procs[q].req
    ensures forall q :: q in s.procs && !(IsRequestStep(step) && step.p == q) ==> Apply(s, step).procs[q] == s.procs[q]
    ensures IsRequestStep(step) ==> step.p in s.procs
  {
  }

  lemma ActorStep(s: State, step: Step)
    requires Enabled(s, step) && IsRequestStep(step) && step.p in s.procs && PlaceFits(s.procs[step.p])
    ensures
      var p, p' := s.procs[step.p], Apply(s, step).procs[step.p];
      && PlaceFits(p')
      && (HoldsCreateLock(p') ==> HoldsCreateLock(p) || step.TakeCreateLock?)
      && (HoldsLabelLock(p') ==> HoldsLabelLock(p) || step.TakeLabelLock?)
      && Rank(p'.pc) < Rank(p.pc)
  {
  }

  lemma StepKeepsLockInv(s: State, step: Step)
    requires LockInv(s) && Enabled(s, step)
    ensures LockInv(Apply(s, step))
  {
    OnlyTheActorMoves(s, step);
    if IsRequestStep(step) {
      assert PlaceFits(s.procs[step.p]);
      ActorStep(s, step);
      forall q | q in s.procs && q != step.p
        ensures !ShareCreateLock(Apply(s, step).procs[step.p], s.procs[q])
        ensures !ShareLabelLock(Apply(s, step).procs[step.p], s.procs[q])
      {
        assert !ShareCreateLock(s.procs[step.p], s.procs[q]) && !ShareLabelLock(s.procs[step.p], s.procs[q]);
      }
    }
    LocksFromPairs(s, Apply(s, step), step);
  }

  lemma LocksFromPairs(s: State, s': State, step: Step)
    requires LockInv(s) && s'.procs.Keys == s.procs.Keys
    requires forall q :: q in s.procs && !(IsRequestStep(step) && step.p == q) ==> s'.procs[q] == s.procs[q]
    requires IsRequestStep(step) ==> step.p in s.procs && PlaceFits(s'.procs[step.p])
    requires IsRequestStep(step) ==>
               forall q :: q in s.procs && q != step.p ==>
                             !ShareCreateLock(s'.procs[step.p], s.procs[q]) && !ShareLabelLock(s'.procs[step.p], s.procs[q])
    ensures LockInv(s')
  {
    forall p, q | p in s.procs && q in s.procs && p != q
      ensures !ShareCreateLock(s'.procs[p], s'.procs[q]) && !ShareLabelLock(s'.procs[p], s'.procs[q])
    {
      assert !ShareCreateLock(s.procs[p], s.procs[q]) && !ShareLabelLock(s.procs[p], s.procs[q]);
      if IsRequestStep(step) && step.p == q {
        assert !ShareCreateLock(s'.procs[q], s.procs[p]) && !ShareLabelLock(s'.procs[q], s.procs[p]);
      }
    }
  }

  lemma {:induction false} RunKeepsLockInv(states: seq<State>, steps: seq<Step>, i: nat)
    requires IsRun(states, steps) && Init(states[0]) && i <= |steps|
    ensures LockInv(states[i])
  {
    if i > 0 {
      RunKeepsLockInv(states, steps, i - 1);
      assert StepAt(states, steps, i - 1);
      StepKeepsLockInv(states[i - 1], steps[i - 1]);
    }
  }

  /** The steps a request has left, at most. */
  function Rank(pc: Pc): nat {
    match pc
    case Start => 5
    case HasCreateLock => 4
    case HasLabelLock => 3
    case ReadyToInsert => 2
    case ReadyToLink(_) => 1
    case InsertedRow(_) => 1
    case Finished(_) => 0
  }

  /** The first n rows of any set exist. */
  lemma {:induction false} FirstRows(catalog: map<int, Entity>, all: set<int>, n: nat) returns (first: set<int>)
    requires all <= catalog.Keys && n <= |all|
    ensures IsFirst(catalog, all, n, first)
    decreases n
  {
    if n == 0 {
      return {};
    }
    var x := SoonestRow(catalog, all);
    first := FirstRows(catalog, all - {x}, n - 1);
    first := first + {x};
  }

  lemma {:induction false} SoonestRow(catalog: map<int, Entity>, all: set<int>) returns (x: int)
    requires all <= catalog.Keys && all != {}
    ensures x in all && forall y :: y in all ==> !Sooner(catalog[y], catalog[x])
    decreases all
  {
    x := SomeMember(all);
    if all != {x} {
      var y := SoonestRow(catalog, all - {x});
      if Sooner(catalog[y], catalog[x]) {
        x := y;
      }
    }
  }

  /** A request that holds its label lock needs no other lock: it can always go on. */
  lemma HolderCanStep(s: State, p: nat) returns (step: Step)
    requires p in s.procs && HoldsLabelLock(s.procs[p]) && PlaceFits(s.procs[p])
    ensures IsRequestStep(step) && !step.Fail? && step.p == p && Enabled(s, step)
  {
    var proc := s.procs[p];
    match proc.pc
    case HasLabelLock =>
      var returned: set<int> := {};
      if proc.req.mode.CreateNew? {
        var all := Colliding(s.db, proc.req.target.kind, proc.req.mode.value);
        returned := FirstRows(s.db.catalog, all, CheckSize(all));
      }
      step := LoadAndDecide(p, returned);
    case ReadyToInsert => step := Insert(p);
    case _ => step := UpdateAndCommit(p, false);
  }

  /** In every reachable state with an unfinished request, some request can take its next step: no deadlock. */
  lemma SomeRequestCanStep(states: seq<State>, steps: seq<Step>, i: nat, p: nat) returns (step: Step)
    requires IsRun(states, steps) && Init(states[0]) && i <= |steps|
    requires p in states[i].procs && !states[i].procs[p].pc.Finished?
    ensures IsRequestStep(step) && !step.Fail? && Enabled(states[i], step)
  {
    RunKeepsLockInv(states, steps, i);
    var s := states[i];
    if h :| h in s.procs && HoldsLabelLock(s.procs[h]) {
      step := HolderCanStep(s, h);
    } else if w :| w in s.procs && s.procs[w].pc.HasCreateLock? {
      step := TakeLabelLock(w);
    } else if s.procs[p].req.mode.CreateNew? {
      step := TakeCreateLock(p);
    } else {
      step := TakeLabelLock(p);
    }
  }

  ghost function StepsOf(steps: seq<Step>, p: nat): nat {
    if steps == [] then 0
    else StepsOf(steps[..|steps| - 1], p)
         + (if IsRequestStep(steps[|steps| - 1]) && steps[|steps| - 1].p == p then 1 else 0)
  }

  /** In any run, a request takes at most five steps, whatever the others do. */
  lemma {:induction false} EveryRequestIsShort(states: seq<State>, steps: seq<Step>, i: nat, p: nat)
    requires IsRun(states, steps) && Init(states[0]) && i <= |steps| && p in states[0].procs
    ensures p in states[i].procs && StepsOf(steps[..i], p) + Rank(states[i].procs[p].pc) <= 5
  {
    if i == 0 {
      assert steps[..0] == [];
    } else {
      var k := i - 1;
      EveryRequestIsShort(states, steps, k, p);
      RunKeepsLockInv(states, steps, k);
      assert StepAt(states, steps, k);
      OnlyTheActorMoves(states[k], steps[k]);
      if IsRequestStep(steps[k]) {
        ActorStep(states[k], steps[k]);
      }
      assert steps[..i][..k] == steps[..k] && steps[..i][k] == steps[k];
    }
  }

  // ----- links ---------------------------------------------------------------------------------

  /**
   A committed link resolves every unlinked row of its label, as the analyst's, and touches no other
   row or linked row.
   */
  lemma CommitResolvesExactlyTheLabel(s: State, p: nat, lost: bool)
    requires Enabled(s, UpdateAndCommit(p, lost))
    ensures
      var t, e := s.procs[p].req.target, s.procs[p].pc.entityId;
      var rows, rows' := s.db.assertions, Apply(s, UpdateAndCommit(p, lost)).db.assertions;
      && rows'.Keys == rows.Keys
      && (forall id :: id in rows && rows[id].target == t && rows[id].entityId.None? ==>
            rows'[id] == rows[id].(entityId := Some(e), analyst := true, resolvedBy := s.procs[p].req.actor))
      && (forall id :: id in rows && !(rows[id].target == t && rows[id].entityId.None?) ==> rows'[id] == rows[id])
      && (forall id :: id in rows' && rows'[id].target == t ==> rows'[id].entityId.Some?)
  {
  }

  /** In every run an analyst's link keeps its entity and its resolver, whatever the sources report again. */
  lemma {:induction false} AnalystLinkIsFinal(states: seq<State>, steps: seq<Step>, i: nat, j: nat, id: int)
    requires IsRun(states, steps) && i <= j <= |steps|
    requires id in states[i].db.assertions && Pinned(states[i].db.assertions[id])
    ensures id in states[j].db.assertions && Pinned(states[j].db.assertions[id])
    ensures states[j].db.assertions[id].entityId == states[i].db.assertions[id].entityId
    ensures states[j].db.assertions[id].resolvedBy == states[i].db.assertions[id].resolvedBy
    decreases j
  {
    if i < j {
      AnalystLinkIsFinal(states, steps, i, j - 1, id);
      assert StepAt(states, steps, j - 1);
    }
  }

  /** The source reports a row it resolved itself again, now with another entity or none. */
  predicate Replaces(s: State, step: Step, id: int) {
    && step.Reingest? && step.id == id && id in s.db.assertions
    && !Pinned(s.db.assertions[id]) && step.reported != s.db.assertions[id].entityId
  }

  lemma LinkChangesIff(s: State, step: Step, id: int)
    requires Enabled(s, step) && id in s.db.assertions && s.db.assertions[id].entityId.Some?
    ensures id in Apply(s, step).db.assertions
    ensures Apply(s, step).db.assertions[id].entityId != s.db.assertions[id].entityId <==> Replaces(s, step, id)
  {
  }

  ghost predicate LinkKept(states: seq<State>, i: nat, j: nat, id: int)
    requires i <= j < |states| && id in states[i].db.assertions
  {
    forall k :: i <= k <= j ==>
      id in states[k].db.assertions && states[k].db.assertions[id].entityId == states[i].db.assertions[id].entityId
  }

  /** Any link, the analyst's or a source's, is kept throughout exactly when no re-ingestion replaces it. */
  lemma {:induction false} LinkIsKeptIff(states: seq<State>, steps: seq<Step>, i: nat, j: nat, id: int)
    requires IsRun(states, steps) && i <= j <= |steps|
    requires id in states[i].db.assertions && states[i].db.assertions[id].entityId.Some?
    ensures LinkKept(states, i, j, id) <==> forall k :: i <= k < j ==> !Replaces(states[k], steps[k], id)
    decreases j
  {
    if i < j {
      LinkIsKeptIff(states, steps, i, j - 1, id);
      assert StepAt(states, steps, j - 1);
      if LinkKept(states, i, j - 1, id) {
        LinkChangesIff(states[j - 1], steps[j - 1], id);
      }
    }
  }

  ghost predicate AllLinked(s: State, t: Target) {
    forall id :: id in s.db.assertions && s.db.assertions[id].target == t ==> s.db.assertions[id].entityId.Some?
  }

  predicate AboutToWrite(p: Proc) {
    p.pc.ReadyToLink? || p.pc.ReadyToInsert? || p.pc.InsertedRow?
  }

  /** Every row of the label is linked and no request for it is past its decision. */
  ghost predicate Closed(s: State, t: Target) {
    && AllLinked(s, t)
    && forall q :: q in s.procs && s.procs[q].req.target == t ==> !AboutToWrite(s.procs[q])
  }

  /** Ingestion gives the label an unlinked row: a new one, or one whose source no longer resolves it. */
  predicate Reopens(s: State, step: Step, t: Target) {
    || (step.Ingest? && step.row.target == t && step.row.entityId.None?)
    || (step.Reingest? && step.id in s.db.assertions && s.db.assertions[step.id].target == t
        && !Pinned(s.db.assertions[step.id]) && step.reported.None?)
  }

  lemma AllLinkedStops(db: Db, req: Request, returned: set<int>)
    requires forall id :: id in db.assertions && db.assertions[id].target == req.target ==> db.assertions[id].entityId.Some?
    ensures UnlinkedVisible(db, req.target) == {} && Decide(db, req, returned).Answer?
  {
    forall id | id in UnlinkedVisible(db, req.target)
      ensures false
    {
    }
    assert UnlinkedVisible(db, req.target) == {};
  }

  lemma ReportMayReopen(s: State, step: Step, t: Target)
    requires AllLinked(s, t) && Enabled(s, step) && (step.Ingest? || step.Reingest?)
    ensures AllLinked(Apply(s, step), t) <==> !Reopens(s, step, t)
  {
    var rows, rows' := s.db.assertions, Apply(s, step).db.assertions;
    assert step.id in rows';
    assert forall id :: id in rows && id != step.id ==> rows'[id] == rows[id];
  }

  lemma OthersKeepLinked(s: State, step: Step, t: Target)
    requires AllLinked(s, t) && Enabled(s, step) && !step.Ingest? && !step.Reingest?
    ensures AllLinked(Apply(s, step), t)
  {
    var rows, rows' := s.db.assertions, Apply(s, step).db.assertions;
    assert forall id :: id in rows' ==> id in rows && rows'[id].target == rows[id].target;
  }

  /** A fully linked label stays fully linked exactly until such a step. */
  lemma StaysLinkedIff(s: State, step: Step, t: Target)
    requires AllLinked(s, t) && Enabled(s, step)
    ensures AllLinked(Apply(s, step), t) <==> !Reopens(s, step, t)
  {
    if step.Ingest? || step.Reingest? {
      ReportMayReopen(s, step, t);
    } else {
      OthersKeepLinked(s, step, t);
    }
  }

  lemma StepKeepsClosed(s: State, step: Step, t: Target)
    requires Closed(s, t) && Enabled(s, step)
    ensures !Reopens(s, step, t) ==> Closed(Apply(s, step), t)
    ensures IsRequestStep(step) && s.procs[step.p].req.target == t ==> Apply(s, step).db == s.db
  {
    OnlyTheActorMoves(s, step);
    StaysLinkedIff(s, step, t);
    if step.LoadAndDecide? && s.procs[step.p].req.target == t {
      AllLinkedStops(s.db, s.procs[step.p].req, step.returned);
    }
  }

  lemma CommitCloses(s: State, p: nat, lost: bool)
    requires LockInv(s) && Enabled(s, UpdateAndCommit(p, lost))
    ensures Closed(Apply(s, UpdateAndCommit(p, lost)), s.procs[p].req.target)
  {
    CommitResolvesExactlyTheLabel(s, p, lost);
    OnlyTheActorMoves(s, UpdateAndCommit(p, lost));
  }

  ghost predicate CommitsAt(states: seq<State>, steps: seq<Step>, i: nat, p: nat)
    requires i < |steps| < |states|
  {
    steps[i].UpdateAndCommit? && steps[i].p == p && p in states[i].procs
  }

  lemma {:induction false} StaysClosed(states: seq<State>, steps: seq<Step>, i: nat, j: nat, p: nat)
    requires IsRun(states, steps) && Init(states[0]) && i < j <= |steps| && CommitsAt(states, steps, i, p)
    requires forall k :: i < k < j ==> !Reopens(states[k], steps[k], states[i].procs[p].req.target)
    ensures Closed(states[j], states[i].procs[p].req.target)
    decreases j
  {
    var t := states[i].procs[p].req.target;
    if j == i + 1 {
      RunKeepsLockInv(states, steps, i);
      assert StepAt(states, steps, i);
      CommitCloses(states[i], p, steps[i].lost);
    } else {
      StaysClosed(states, steps, i, j - 1, p);
      assert StepAt(states, steps, j - 1);
      StepKeepsClosed(states[j - 1], steps[j - 1], t);
    }
  }

  /**
   After a link or create commits for a label, no later request for that label changes any table
   until ingestion gives the label an unlinked row.
   */
  lemma LaterRequestsChangeNothing(states: seq<State>, steps: seq<Step>, i: nat, j: nat, p: nat)
    requires IsRun(states, steps) && Init(states[0]) && i < j < |steps| && CommitsAt(states, steps, i, p)
    requires forall k :: i < k < j ==> !Reopens(states[k], steps[k], states[i].procs[p].req.target)
    requires IsRequestStep(steps[j]) && steps[j].p in states[j].procs
             && states[j].procs[steps[j].p].req.target == states[i].procs[p].req.target
    ensures states[j + 1].db == states[j].db
  {
    StaysClosed(states, steps, i, j, p);
    assert StepAt(states, steps, j);
    StepKeepsClosed(states[j], steps[j], states[i].procs[p].req.target);
  }

  const EXAMPLE_TARGET := Target(1, "domain", MalwareFamily, "emotet")

  /**
   Without a new row a label can open again: a row its source had resolved is reported without an
   entity, and the next request links it.
   */
  lemma ReingestionReopensALabel(e: int, f: int, actor: Option<string>)
    ensures
      var mine := Assertion(EXAMPLE_TARGET, None, false, None, true, "otx", "pulse", "a");
      var theirs := Assertion(EXAMPLE_TARGET, Some(e), false, None, true, "otx", "pulse", "b");
      var rows1 := LinkRows(map[1 := mine, 2 := theirs], EXAMPLE_TARGET, e, actor);
      var rows2 := rows1[2 := Reported(rows1[2], None)];
      && rows1[2].entityId == Some(e) && rows2[2].entityId.None?
      && LinkRows(rows2, EXAMPLE_TARGET, f, actor)[2].entityId == Some(f)
      && LinkRows(rows2, EXAMPLE_TARGET, f, actor)[1].entityId == Some(e)
  {
  }

  // ----- repeating a request -------------------------------------------------------------------

  /** A suppression that would hide the row once it points to the entity. */
  predicate HiddenOnceLinked(db: Db, a: Assertion, e: int) {
    exists o :: o in db.overrides && Suppresses(o, a.(entityId := Some(e)))
  }

  /** The row stays visible after the label is linked to e, and then points to e. */
  predicate ShowsEntity(db: Db, a: Assertion, e: int) {
    a.current && (a.entityId.None? || a.entityId == Some(e)) && !HiddenOnceLinked(db, a, e)
  }

  /** A visible row already points to another entity that exists in the catalog. */
  predicate ShowsAnother(db: Db, t: Target, a: Assertion, e: int) {
    IsVisible(db, a) && a.entityId.Some? && a.entityId.value != e && InCatalog(db, t.kind, a.entityId.value)
  }

  lemma AfterLinking(db: Db, req: Request, e: int, id: int)
    requires id in db.assertions && db.assertions[id].target == req.target
    ensures id in CommitDb(db, req, e).assertions && CommitDb(db, req, e).assertions[id].entityId.Some?
    ensures id in VisibleRows(CommitDb(db, req, e), req.target) <==>
              ShowsEntity(db, db.assertions[id], e)
              || (IsVisible(db, db.assertions[id]) && db.assertions[id].entityId.Some? && db.assertions[id].entityId != Some(e))
  {
    var a, db' := db.assertions[id], CommitDb(db, req, e);
    assert db'.overrides == db.overrides;
    if a.entityId.None? || a.entityId == Some(e) {
      forall o | o in db.overrides
        ensures Suppresses(o, db'.assertions[id]) <==> Suppresses(o, a.(entityId := Some(e)))
      {
      }
    }
  }

  /**
   Repeating a link or create request right after it committed answers already_linked exactly when
   some row of the label stays visible with the chosen entity and no visible row points to another
   one. A suppression override that targets the chosen entity can make the repeat fail.
   */
  lemma RepeatedRequestAnswer(db: Db, req: Request, e: int, returned: set<int>)
    requires req.mode.LinkTo? ==> req.mode.entityId == e && InCatalog(db, req.target.kind, e)
    requires (req.target.iocId, req.target.observableType) in db.iocs
    ensures
      Decide(CommitDb(db, req, e), req, returned) == Answer(AlreadyLinked(e)) <==>
      && (exists id :: id in RowsOf(db, req.target) && ShowsEntity(db, db.assertions[id], e))
      && (forall id :: id in RowsOf(db, req.target) ==> !ShowsAnother(db, req.target, db.assertions[id], e))
  {
    var t, db' := req.target, CommitDb(db, req, e);
    assert RowsOf(db', t) == RowsOf(db, t);
    forall id | id in RowsOf(db, t)
      ensures id in VisibleRows(db', t) <==>
                ShowsEntity(db, db.assertions[id], e)
                || (IsVisible(db, db.assertions[id]) && db.assertions[id].entityId.Some? && db.assertions[id].entityId != Some(e))
    {
      AfterLinking(db, req, e, id);
    }
    AllLinkedStops(db', req, returned);
    LinkedAfterLinking(db, req, e);
  }

  lemma LinkedAfterLinking(db: Db, req: Request, e: int)
    requires req.mode.LinkTo? ==> InCatalog(db, req.target.kind, e)
    ensures
      LinkedEntities(CommitDb(db, req, e), req.target) == {e} <==>
      && (exists id :: id in RowsOf(db, req.target) && ShowsEntity(db, db.assertions[id], e))
      && (forall id :: id in RowsOf(db, req.target) ==> !ShowsAnother(db, req.target, db.assertions[id], e))
  {
    var t, db' := req.target, CommitDb(db, req, e);
    var linked := LinkedEntities(db', t);
    forall id | id in RowsOf(db, t)
      ensures ShowsEntity(db, db.assertions[id], e) <==> id in VisibleRows(db', t) && db'.assertions[id].entityId == Some(e)
      ensures ShowsAnother(db, t, db.assertions[id], e) ==> db.assertions[id].entityId.value in linked
    {
      AfterLinking(db, req, e, id);
    }
    assert e in linked <==> exists id :: id in RowsOf(db, t) && ShowsEntity(db, db.assertions[id], e) by {
      if e in linked {
        var id :| id in VisibleRows(db', t) && db'.assertions[id].entityId == Some(e);
        assert id in RowsOf(db, t);
      }
    }
    if x :| x in linked && x != e {
      var id :| id in VisibleRows(db', t) && db'.assertions[id].entityId == Some(x);
      assert id in RowsOf(db, t);
      AfterLinking(db, req, e, id);
      assert ShowsAnother(db, t, db.assertions[id], e);
    } else {
      assert linked <= {e};
    }
  }

  /**
   A suppression override on the chosen entity breaks the repeat: the link goes through, its rows
   vanish behind the override, and the same request is then told that there is no such label.
   */
  lemma SuppressedRepeatFails(returned: set<int>)
    ensures
      var row := Assertion(EXAMPLE_TARGET, None, false, None, true, "otx", "pulse", "a");
      var mute := Override(1, "domain", MalwareFamily, None, None, None, Some(7), None);
      var family := Entity(MalwareFamily, Value("emotet", {"emotet"}, "emotet", {"emotet"}, 0), true);
      var db := Db({(1, "domain")}, map[1 := row], {mute}, map[7 := family]);
      var req := Request(EXAMPLE_TARGET, LinkTo(7), None);
      && Decide(db, req, returned) == ProceedWith(7)
      && Decide(CommitDb(db, req, 7), req, returned) == Answer(Rejected(LabelNotFound))
  {
    var row := Assertion(EXAMPLE_TARGET, None, false, None, true, "otx", "pulse", "a");
    var mute := Override(1, "domain", MalwareFamily, None, None, None, Some(7), None);
    var family := Entity(MalwareFamily, Value("emotet", {"emotet"}, "emotet", {"emotet"}, 0), true);
    var db := Db({(1, "domain")}, map[1 := row], {mute}, map[7 := family]);
    var db' := CommitDb(db, Request(EXAMPLE_TARGET, LinkTo(7), None), 7);
    assert 1 in VisibleRows(db, EXAMPLE_TARGET) && 1 in UnlinkedVisible(db, EXAMPLE_TARGET);
    assert Suppresses(mute, db'.assertions[1]);
    assert VisibleRows(db', EXAMPLE_TARGET) == {};
  }

  // ----- duplicates ----------------------------------------------------------------------------

  /** Merely similar rows that may stand before this exact one in the result. */
  function AheadOf(db: Db, kind: Kind, v: Value, x: int): set<int>
    requires x in db.catalog
  {
    set y | y in Colliding(db, kind, v) && y !in ExactlyColliding(db, kind, v) && !Sooner(db.catalog[x], db.catalog[y])
  }

  /** Some exact row has fewer than 20 merely similar rows ahead of it. */
  ghost predicate ExactRowFits(db: Db, kind: Kind, v: Value) {
    exists x :: x in ExactlyColliding(db, kind, v) && |AheadOf(db, kind, v, x)| < 20
  }

  /** The check is certain to return an exact row. */
  ghost predicate SeesExactRow(db: Db, kind: Kind, v: Value) {
    forall returned :: IsCheckResult(db, kind, v, returned) ==> returned * ExactlyColliding(db, kind, v) != {}
  }

  /** A result without exact rows is made of rows ahead of every exact one. */
  lemma MissedRowIsBehind(db: Db, kind: Kind, v: Value, x: int, returned: set<int>)
    requires x in ExactlyColliding(db, kind, v)
    requires IsCheckResult(db, kind, v, returned) && returned * ExactlyColliding(db, kind, v) == {}
    ensures returned <= AheadOf(db, kind, v, x) && |AheadOf(db, kind, v, x)| >= COLLISION_LIMIT
  {
    var all := Colliding(db, kind, v);
    assert forall y :: y in returned && y in ExactlyColliding(db, kind, v) ==> y in returned * ExactlyColliding(db, kind, v);
    assert x in all && x !in returned;
    SubsetCardinality(returned, all);
    assert forall y :: y in returned ==> y in AheadOf(db, kind, v, x);
    SubsetCardinality(returned, AheadOf(db, kind, v, x));
  }

  /** With 20 similar rows ahead of the soonest exact row, the first 20 of them are a result. */
  lemma CrowdedOut(db: Db, kind: Kind, v: Value) returns (returned: set<int>)
    requires ExactlyColliding(db, kind, v) != {} && !ExactRowFits(db, kind, v)
    ensures IsCheckResult(db, kind, v, returned) && returned * ExactlyColliding(db, kind, v) == {}
  {
    var all, exact := Colliding(db, kind, v), ExactlyColliding(db, kind, v);
    var x := SoonestRow(db.catalog, exact);
    var ahead := AheadOf(db, kind, v, x);
    returned := FirstRows(db.catalog, ahead, COLLISION_LIMIT);
    forall r, y | r in returned && y in all && y !in returned
      ensures !Sooner(db.catalog[y], db.catalog[r])
    {
      assert r in ahead && !Sooner(db.catalog[x], db.catalog[r]);
      assert y in exact ==> !Sooner(db.catalog[y], db.catalog[x]);
    }
    SubsetCardinality(ahead, all);
  }

  /**
   The duplicate check is certain to see an exact collision exactly when some exact row has fewer than
   20 merely similar rows ahead of it in the order of the query.
   */
  lemma CheckSeesExactCollision(db: Db, kind: Kind, v: Value)
    requires ExactlyColliding(db, kind, v) != {}
    ensures SeesExactRow(db, kind, v) <==> ExactRowFits(db, kind, v)
  {
    if ExactRowFits(db, kind, v) {
      var x :| x in ExactlyColliding(db, kind, v) && |AheadOf(db, kind, v, x)| < COLLISION_LIMIT;
      forall returned | IsCheckResult(db, kind, v, returned)
        ensures returned * ExactlyColliding(db, kind, v) != {}
      {
        if returned * ExactlyColliding(db, kind, v) == {} {
          MissedRowIsBehind(db, kind, v, x, returned);
        }
      }
    } else {
      var returned := CrowdedOut(db, kind, v);
    }
  }

  /** Otherwise a confirmed create is let through although it shares a key with an entity. */
  lemma LimitCanHideADuplicate(db: Db, req: Request) returns (returned: set<int>)
    requires req.mode.CreateNew? && req.mode.confirmDistinct
    requires (req.target.iocId, req.target.observableType) in db.iocs && UnlinkedVisible(db, req.target) != {}
    requires
      var kind, v := req.target.kind, req.mode.value;
      ExactlyColliding(db, kind, v) != {} && !ExactRowFits(db, kind, v)
    ensures IsCheckResult(db, req.target.kind, req.mode.value, returned)
    ensures Decide(db, req, returned) == ProceedToInsert
  {
    returned := CrowdedOut(db, req.target.kind, req.mode.value);
    assert UnlinkedVisible(db, req.target) <= VisibleRows(db, req.target);
  }

  // Families 0 to n - 1 list a spelling of "apt1" as an alias; family n sorts behind them and lists "apt1" itself.

  function Repeated(c: char, n: nat): string {
    seq(n, _ => c)
  }

  function SimilarFamily(k: nat): Entity {
    var name := Repeated('x', k + 1);
    Entity(MalwareFamily, Value(name, {name, "a" + Repeated('-', k + 1) + "pt1"}, name, {name, "apt1"}, k), true)
  }

  function AliasedFamily(n: nat): Entity {
    Entity(MalwareFamily, Value("zebra", {"zebra", "apt1"}, "zebra", {"zebra", "apt1"}, n), true)
  }

  function Numbers(n: nat): (r: set<int>)
    ensures |r| == n && forall k :: k in r <==> 0 <= k < n
  {
    if n == 0 then {} else Numbers(n - 1) + {n - 1}
  }

  function CrowdedDb(n: nat): Db {
    Db({(1, "domain")},
       map[1 := Assertion(EXAMPLE_TARGET, None, false, None, true, "otx", "pulse", "a")],
       {},
       map k | k in Numbers(n + 1) :: if k < n then SimilarFamily(k) else AliasedFamily(n))
  }

  const DUPLICATE := Value("apt1", {"apt1"}, "apt1", {"apt1"}, -1)

  const DUPLICATE_REQUEST := Request(EXAMPLE_TARGET, CreateNew(DUPLICATE, true), None)

  /** With 20 or more of them the query returns only similar families, and the create of a second "apt1" goes through. */
  lemma DuplicateGetsThrough(n: nat) returns (returned: set<int>)
    requires n >= COLLISION_LIMIT
    ensures IsCheckResult(CrowdedDb(n), MalwareFamily, DUPLICATE, returned)
    ensures forall r :: IsCheckResult(CrowdedDb(n), MalwareFamily, DUPLICATE, r) ==>
              Decide(CrowdedDb(n), DUPLICATE_REQUEST, r) == ProceedToInsert
    ensures forall id :: id in CrowdedDb(n).catalog ==> CrowdedDb(n).catalog[id].value.slug != DUPLICATE.slug
    ensures KeysDisjoint(CrowdedDb(n)) && !KeysDisjoint(CommitDb(CrowdedDb(n), DUPLICATE_REQUEST, n + 1))
  {
    var db := CrowdedDb(n);
    var all := Colliding(db, MalwareFamily, DUPLICATE);
    returned := FirstRows(db.catalog, all, CheckSize(all));
    forall k | k in db.catalog
      ensures db.catalog[k].value.slug != DUPLICATE.slug
    {
      FamilyCollides(n, k);
    }
    CrowdedResult(n);
    CrowdedKeysDisjoint(n);
    LabelIsOpen(db);
    assert n in Numbers(n + 1);
    KeyIsTaken(db, n);
  }

  lemma SimilarFamiliesDiffer(k: nat, m: nat)
    requires k != m
    ensures SimilarFamily(k).value.keys !! SimilarFamily(m).value.keys
    ensures SimilarFamily(k).value.keys !! {"zebra", "apt1"} && SimilarFamily(k).value.slug != "apt1"
  {
    var x, y := Repeated('x', k + 1), Repeated('x', m + 1);
    var a, b := "a" + Repeated('-', k + 1) + "pt1", "a" + Repeated('-', m + 1) + "pt1";
    assert |x| != |y| && |a| != |b|;
    assert x[0] == 'x' && y[0] == 'x' && a[0] == 'a' && b[0] == 'a' && a[1] == '-';
  }

  lemma CrowdedKeysDisjoint(n: nat)
    ensures KeysDisjoint(CrowdedDb(n))
  {
    var catalog := CrowdedDb(n).catalog;
    forall a, b | a in catalog && b in catalog && a < b
      ensures catalog[a].value.keys !! catalog[b].value.keys
    {
      assert catalog[a] == SimilarFamily(a) && b <= n;
      SimilarFamiliesDiffer(a, b);
    }
  }

  lemma FamilyCollides(n: nat, k: int)
    requires k in CrowdedDb(n).catalog
    ensures
      var catalog := CrowdedDb(n).catalog;
      && n in catalog && k <= n
      && SimilarCollision(catalog[k], MalwareFamily, DUPLICATE) && catalog[k].value.slug != DUPLICATE.slug
      && (k < n ==> !ExactCollision(catalog[k], MalwareFamily, DUPLICATE) && Sooner(catalog[k], catalog[n]))
  {
    var catalog := CrowdedDb(n).catalog;
    assert n in catalog && catalog[n] == AliasedFamily(n);
    assert "apt1" in catalog[k].value.compacts * {"apt1"};
    if k < n {
      assert catalog[k] == SimilarFamily(k);
      SimilarFamiliesDiffer(k, k + 1);
    }
  }

  /** A row behind all others is not among the first of more than n rows. */
  lemma LastRowIsCutOff(catalog: map<int, Entity>, all: set<int>, n: nat, first: set<int>, x: int)
    requires all <= catalog.Keys && n < |all| && IsFirst(catalog, all, n, first) && x in all
    requires forall y :: y in all && y != x ==> Sooner(catalog[y], catalog[x])
    ensures x !in first
  {
    assert |all - first| == |all| - |first|;
    var y := SomeMember(all - first);
    assert y == x || Sooner(catalog[y], catalog[x]);
  }

  lemma CrowdedResult(n: nat)
    requires n >= COLLISION_LIMIT
    ensures forall r :: IsCheckResult(CrowdedDb(n), MalwareFamily, DUPLICATE, r) ==>
              r * ExactlyColliding(CrowdedDb(n), MalwareFamily, DUPLICATE) == {}
  {
    var db := CrowdedDb(n);
    var all, exact := Colliding(db, MalwareFamily, DUPLICATE), ExactlyColliding(db, MalwareFamily, DUPLICATE);
    forall k | k in db.catalog
      ensures k in all && (k != n ==> k !in exact && Sooner(db.catalog[k], db.catalog[n]))
    {
      FamilyCollides(n, k);
    }
    assert all == db.catalog.Keys == Numbers(n + 1);
    forall r | IsCheckResult(db, MalwareFamily, DUPLICATE, r)
      ensures r * exact == {}
    {
      LastRowIsCutOff(db.catalog, all, COLLISION_LIMIT, r, n);
    }
  }

  lemma LabelIsOpen(db: Db)
    requires db.overrides == {} && 1 in db.assertions
    requires db.assertions[1] == Assertion(EXAMPLE_TARGET, None, false, None, true, "otx", "pulse", "a")
    ensures UnlinkedVisible(db, EXAMPLE_TARGET) != {} && VisibleRows(db, EXAMPLE_TARGET) != {}
  {
    assert 1 in VisibleRows(db, EXAMPLE_TARGET) && 1 in UnlinkedVisible(db, EXAMPLE_TARGET);
  }

  lemma KeyIsTaken(db: Db, n: nat)
    requires n in db.catalog && db.catalog[n] == AliasedFamily(n)
    ensures !KeysDisjoint(CommitDb(db, DUPLICATE_REQUEST, n + 1))
  {
    var catalog := CommitDb(db, DUPLICATE_REQUEST, n + 1).catalog;
    assert catalog[n] == AliasedFamily(n) && "apt1" in catalog[n].value.keys && "apt1" in catalog[n + 1].value.keys;
  }

  /** Every create check that meets an exact row sees it, and no name came from the admin page. */
  ghost predicate ChecksComplete(states: seq<State>, steps: seq<Step>)
    requires |steps| < |states|
  {
    forall i :: 0 <= i < |steps| ==> CheckComplete(states[i], steps[i])
  }

  ghost predicate CheckComplete(s: State, step: Step) {
    && !step.AdminCreate? && !step.AdminUpdate?
    && (step.LoadAndDecide? && step.p in s.procs && s.procs[step.p].req.mode.CreateNew? ==>
          var kind, v := s.procs[step.p].req.target.kind, s.procs[step.p].req.mode.value;
          ExactlyColliding(s.db, kind, v) != {} ==> ExactRowFits(s.db, kind, v))
  }

  /** Entities of one kind share no name or alias. */
  ghost predicate KeysDisjoint(db: Db) {
    forall a, b :: a in db.catalog && b in db.catalog && a != b && db.catalog[a].kind == db.catalog[b].kind ==>
                     db.catalog[a].value.keys !! db.catalog[b].value.keys
  }

  /** A request that passed the check names no key an entity of its kind has. */
  ghost predicate PassedCheck(s: State, p: Proc) {
    (p.pc.ReadyToInsert? || p.pc.InsertedRow?) && p.req.mode.CreateNew? ==>
      forall id :: id in s.db.catalog && s.db.catalog[id].kind == p.req.target.kind ==>
                     s.db.catalog[id].value.keys !! p.req.mode.value.keys
  }

  ghost predicate KeyInv(s: State) {
    && KeysDisjoint(s.db)
    && forall p :: p in s.procs ==> PassedCheck(s, s.procs[p])
  }

  lemma CheckPasses(s: State, step: Step)
    requires step.LoadAndDecide? && Enabled(s, step) && CheckComplete(s, step)
    ensures PassedCheck(s, Apply(s, step).procs[step.p])
  {
    var req := s.procs[step.p].req;
    if req.mode.CreateNew? && Decide(s.db, req, step.returned).ProceedToInsert? {
      var kind, v := req.target.kind, req.mode.value;
      if ExactlyColliding(s.db, kind, v) != {} {
        CheckSeesExactCollision(s.db, kind, v);
      }
      forall id | id in s.db.catalog && s.db.catalog[id].kind == kind
        ensures s.db.catalog[id].value.keys !! v.keys
      {
        assert id !in ExactlyColliding(s.db, kind, v);
        assert forall k :: k in s.db.catalog[id].value.keys && k in v.keys ==> k in s.db.catalog[id].value.keys * v.keys;
      }
    }
  }

  /** Only a commit of a create, or the admin page, adds to the catalog; nothing else changes names. */
  lemma CatalogMoves(s: State, step: Step)
    requires Enabled(s, step) && !step.AdminCreate? && !step.AdminUpdate? && !step.UpdateAndCommit?
    ensures Apply(s, step).db.catalog.Keys == s.db.catalog.Keys
    ensures forall id :: id in s.db.catalog ==>
              Apply(s, step).db.catalog[id].kind == s.db.catalog[id].kind
              && Apply(s, step).db.catalog[id].value == s.db.catalog[id].value
  {
  }

  lemma StepKeepsKeyInv(s: State, step: Step)
    requires LockInv(s) && KeyInv(s) && Enabled(s, step) && CheckComplete(s, step)
    ensures KeyInv(Apply(s, step))
  {
    OnlyTheActorMoves(s, step);
    if step.UpdateAndCommit? {
      CommitKeepsKeyInv(s, step.p, step.lost);
    } else {
      CatalogMoves(s, step);
      if step.LoadAndDecide? {
        CheckPasses(s, step);
      }
    }
  }

  lemma CommitKeepsKeyInv(s: State, p: nat, lost: bool)
    requires LockInv(s) && KeyInv(s) && Enabled(s, UpdateAndCommit(p, lost))
    ensures KeyInv(Apply(s, UpdateAndCommit(p, lost)))
  {
    OnlyTheActorMoves(s, UpdateAndCommit(p, lost));
    var req, e := s.procs[p].req, s.procs[p].pc.entityId;
    assert PassedCheck(s, s.procs[p]) && PlaceFits(s.procs[p]);
    if req.mode.CreateNew? {
      forall q | q in s.procs && q != p
        ensures PassedCheck(Apply(s, UpdateAndCommit(p, lost)), s.procs[q])
      {
        assert PassedCheck(s, s.procs[q]);
        assert !ShareCreateLock(s.procs[p], s.procs[q]);
      }
    }
  }

  /**
   Under any interleaving of link and create requests, the names and aliases of distinct entities of
   a kind stay disjoint, provided every duplicate check that meets an exact row has room for it.
   */
  lemma {:induction false} IdentityKeysStayDisjoint(states: seq<State>, steps: seq<Step>, i: nat)
    requires IsRun(states, steps) && Init(states[0]) && KeysDisjoint(states[0].db) && i <= |steps|
    requires ChecksComplete(states, steps)
    ensures KeyInv(states[i])
  {
    if i > 0 {
      IdentityKeysStayDisjoint(states, steps, i - 1);
      RunKeepsLockInv(states, steps, i - 1);
      assert StepAt(states, steps, i - 1);
      assert CheckComplete(states[i - 1], steps[i - 1]);
      StepKeepsKeyInv(states[i - 1], steps[i - 1]);
    }
  }

  /** Committed and pending slugs of one kind are unique, and new ids are unused. */
  ghost predicate SlugInv(s: State) {
    && (forall id :: id in s.db.catalog ==> id < s.nextId)
    && (forall a, b :: a in s.db.catalog && b in s.db.catalog && a != b && s.db.catalog[a].kind == s.db.catalog[b].kind ==>
                         s.db.catalog[a].value.slug != s.db.catalog[b].value.slug)
    && (forall p :: p in s.procs && s.procs[p].pc.InsertedRow? ==> PendingIsNew(s, s.procs[p]))
  }

  ghost predicate PendingIsNew(s: State, p: Proc)
    requires p.pc.InsertedRow?
  {
    && p.req.mode.CreateNew? && p.pc.entityId < s.nextId && p.pc.entityId !in s.db.catalog
    && forall id :: id in s.db.catalog && s.db.catalog[id].kind == p.req.target.kind ==>
                      s.db.catalog[id].value.slug != p.req.mode.value.slug
  }

  /** Steps that leave the catalog's slugs and the id counter alone. */
  lemma QuietStepKeepsSlugInv(s: State, step: Step)
    requires SlugInv(s) && PendingDistinct(s) && Enabled(s, step)
    requires !step.UpdateAndCommit? && !step.AdminCreate? && !step.AdminUpdate? && !step.Insert?
    ensures SlugInv(Apply(s, step)) && PendingDistinct(Apply(s, step))
  {
    OnlyTheActorMoves(s, step);
    CatalogMoves(s, step);
    forall q | q in s.procs && Apply(s, step).procs[q].pc.InsertedRow?
      ensures Apply(s, step).procs[q] == s.procs[q] && PendingIsNew(Apply(s, step), s.procs[q])
    {
      assert PendingIsNew(s, s.procs[q]);
    }
  }

  lemma InsertKeepsSlugInv(s: State, step: Step)
    requires SlugInv(s) && PendingDistinct(s) && Enabled(s, step) && step.Insert?
    ensures SlugInv(Apply(s, step)) && PendingDistinct(Apply(s, step))
  {
    OnlyTheActorMoves(s, step);
    forall q | q in s.procs && s.procs[q].pc.InsertedRow?
      ensures PendingIsNew(Apply(s, step), s.procs[q])
    {
      assert PendingIsNew(s, s.procs[q]);
    }
  }

  lemma AdminKeepsSlugInv(s: State, step: Step)
    requires SlugInv(s) && PendingDistinct(s) && Enabled(s, step) && (step.AdminCreate? || step.AdminUpdate?)
    ensures SlugInv(Apply(s, step)) && PendingDistinct(Apply(s, step))
  {
    OnlyTheActorMoves(s, step);
    forall q | q in s.procs && s.procs[q].pc.InsertedRow?
      ensures PendingIsNew(Apply(s, step), s.procs[q])
    {
      assert PendingIsNew(s, s.procs[q]);
      assert step.AdminCreate? ==> !HasPendingSlug(s.procs[q], step.entity.kind, step.entity.value.slug);
      assert step.AdminUpdate? ==> !HasPendingSlug(s.procs[q], s.db.catalog[step.id].kind, step.value.slug);
    }
  }

  lemma CommitOfLinkKeepsSlugInv(s: State, p: nat, lost: bool)
    requires SlugInv(s) && PendingDistinct(s) && Enabled(s, UpdateAndCommit(p, lost)) && s.procs[p].req.mode.LinkTo?
    ensures SlugInv(Apply(s, UpdateAndCommit(p, lost))) && PendingDistinct(Apply(s, UpdateAndCommit(p, lost)))
  {
    OnlyTheActorMoves(s, UpdateAndCommit(p, lost));
    assert Apply(s, UpdateAndCommit(p, lost)).db.catalog == s.db.catalog;
    forall q | q in s.procs && q != p && s.procs[q].pc.InsertedRow?
      ensures PendingIsNew(Apply(s, UpdateAndCommit(p, lost)), s.procs[q])
    {
      assert PendingIsNew(s, s.procs[q]);
    }
  }

  lemma PendingStaysNew(s: State, p: nat, lost: bool, q: nat)
    requires LockInv(s) && SlugInv(s) && PendingDistinct(s) && Enabled(s, UpdateAndCommit(p, lost))
    requires s.procs[p].req.mode.CreateNew? && q in s.procs && q != p && s.procs[q].pc.InsertedRow?
    ensures PendingIsNew(Apply(s, UpdateAndCommit(p, lost)), s.procs[q])
  {
    assert PlaceFits(s.procs[p]) && PendingIsNew(s, s.procs[p]) && PendingIsNew(s, s.procs[q]);
    assert !ShareCreateLock(s.procs[p], s.procs[q]) && !SharePendingId(s.procs[p].pc, s.procs[q].pc);
  }

  lemma CommitOfCreateKeepsSlugInv(s: State, p: nat, lost: bool)
    requires LockInv(s) && SlugInv(s) && PendingDistinct(s) && Enabled(s, UpdateAndCommit(p, lost))
    requires s.procs[p].req.mode.CreateNew?
    ensures SlugInv(Apply(s, UpdateAndCommit(p, lost))) && PendingDistinct(Apply(s, UpdateAndCommit(p, lost)))
  {
    OnlyTheActorMoves(s, UpdateAndCommit(p, lost));
    assert PlaceFits(s.procs[p]) && PendingIsNew(s, s.procs[p]);
    forall q | q in s.procs && q != p && s.procs[q].pc.InsertedRow?
      ensures PendingIsNew(Apply(s, UpdateAndCommit(p, lost)), s.procs[q])
    {
      PendingStaysNew(s, p, lost, q);
    }
  }

  lemma StepKeepsSlugInv(s: State, step: Step)
    requires LockInv(s) && SlugInv(s) && PendingDistinct(s) && Enabled(s, step)
    ensures SlugInv(Apply(s, step)) && PendingDistinct(Apply(s, step))
  {
    if step.UpdateAndCommit? {
      if s.procs[step.p].req.mode.CreateNew? {
        CommitOfCreateKeepsSlugInv(s, step.p, step.lost);
      } else {
        CommitOfLinkKeepsSlugInv(s, step.p, step.lost);
      }
    } else if step.Insert? {
      InsertKeepsSlugInv(s, step);
    } else if step.AdminCreate? || step.AdminUpdate? {
      AdminKeepsSlugInv(s, step);
    } else {
      QuietStepKeepsSlugInv(s, step);
    }
  }

  predicate SharePendingId(a: Pc, b: Pc) {
    a.InsertedRow? && b.InsertedRow? && a.entityId == b.entityId
  }

  ghost predicate PendingDistinct(s: State) {
    forall p, q :: p in s.procs && q in s.procs && SharePendingId(s.procs[p].pc, s.procs[q].pc) ==> p == q
  }

  /** Slugs stay unique per kind in every run, whatever the checks saw and whatever the admin page creates. */
  lemma {:induction false} SlugsStayUnique(states: seq<State>, steps: seq<Step>, i: nat)
    requires IsRun(states, steps) && Init(states[0]) && SlugInv(states[0]) && i <= |steps|
    ensures SlugInv(states[i]) && PendingDistinct(states[i])
  {
    if i == 0 {
      assert PendingDistinct(states[0]);
    } else {
      var s, step := states[i - 1], steps[i - 1];
      SlugsStayUnique(states, steps, i - 1);
      RunKeepsLockInv(states, steps, i - 1);
      assert StepAt(states, steps, i - 1);
      assert Enabled(s, step) && states[i] == Apply(s, step);
      StepKeepsSlugInv(s, step);
    }
  }

  // ----- a refused request wrote nothing -------------------------------------------------------

  predicate HasLinked(pc: Pc) {
    pc.Finished? && (pc.outcome.LinkedNow? || pc.outcome.CreatedAndLinked?)
  }

  /** The request committed before step i; `lost` tells whether the answer to COMMIT was. */
  ghost predicate CommittedBy(steps: seq<Step>, i: nat, p: nat, lost: bool)
    requires i <= |steps|
  {
    exists k :: 0 <= k < i && steps[k] == UpdateAndCommit(p, lost)
  }

  /** The outcome a request shows when the answer to its COMMIT is lost, among other failures. */
  predicate HasFailed(pc: Pc) {
    pc == Finished(Rejected(DatabaseError))
  }

  lemma OnlyCommitWrites(s: State, step: Step, p: nat)
    requires Enabled(s, step) && p in s.procs
    ensures IsRequestStep(step) && !step.UpdateAndCommit? ==> Apply(s, step).db == s.db
    ensures p in Apply(s, step).procs
    ensures HasLinked(Apply(s, step).procs[p].pc) <==> HasLinked(s.procs[p].pc) || step == UpdateAndCommit(p, false)
    ensures HasFailed(s.procs[p].pc) || step == UpdateAndCommit(p, true) ==> HasFailed(Apply(s, step).procs[p].pc)
  {
    if step.LoadAndDecide? {
      assert !HasLinked(DecisionPc(Decide(s.db, s.procs[step.p].req, step.returned)));
    }
  }

  /** A request ends linked or created exactly when it committed and heard so; a lost answer ends as a database error. */
  lemma {:induction false} LinkedIffCommitted(states: seq<State>, steps: seq<Step>, i: nat, p: nat)
    requires IsRun(states, steps) && Init(states[0]) && i <= |steps| && p in states[0].procs
    ensures p in states[i].procs
    ensures HasLinked(states[i].procs[p].pc) <==> CommittedBy(steps, i, p, false)
    ensures CommittedBy(steps, i, p, true) ==> HasFailed(states[i].procs[p].pc)
  {
    if i > 0 {
      LinkedIffCommitted(states, steps, i - 1, p);
      assert StepAt(states, steps, i - 1);
      OnlyCommitWrites(states[i - 1], steps[i - 1], p);
    }
  }

  /**
   A request that is refused, finds its label linked, or is still under way has not written: none of
   its steps changed a table. A refusal by a database error must not be the lost answer to a COMMIT.
   */
  lemma RefusedRequestChangesNothing(states: seq<State>, steps: seq<Step>, i: nat, j: nat, p: nat)
    requires IsRun(states, steps) && Init(states[0]) && i < j <= |steps| && p in states[0].procs
    requires p in states[j].procs && !HasLinked(states[j].procs[p].pc)
    requires HasFailed(states[j].procs[p].pc) ==> !CommittedBy(steps, j, p, true)
    requires IsRequestStep(steps[i]) && steps[i].p == p
    ensures states[i + 1].db == states[i].db
  {
    LinkedIffCommitted(states, steps, i, p);
    LinkedIffCommitted(states, steps, j, p);
    assert StepAt(states, steps, i);
    OnlyCommitWrites(states[i], steps[i], p);
  }

  /** With a lost answer it has written, and says otherwise; repeating the request then finds the label linked. */
  lemma LostCommitHasWritten(s: State, p: nat)
    requires Enabled(s, UpdateAndCommit(p, true))
    ensures
      var s' := Apply(s, UpdateAndCommit(p, true));
      && HasFailed(s'.procs[p].pc)
      && s'.db == CommitDb(s.db, s.procs[p].req, s.procs[p].pc.entityId)
      && (UnlinkedVisible(s.db, s.procs[p].req.target) != {} ==> s'.db != s.db)
  {
    var t, s' := s.procs[p].req.target, Apply(s, UpdateAndCommit(p, true));
    if UnlinkedVisible(s.db, t) != {} {
      var id := SomeMember(UnlinkedVisible(s.db, t));
      assert s'.db.assertions[id] != s.db.assertions[id];
    }
  }
}
