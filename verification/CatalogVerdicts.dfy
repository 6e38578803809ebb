/** What a link or create request is answered, told from the tables it read. */
module CatalogVerdicts {
  import opened Options
  import opened Sets
  import opened CatalogLinking
  import opened CatalogLinkingProofs

  // ----- visibility ----------------------------------------------------------------------------

  /** An override reaches only rows of its IOC and kind, and each detail it names narrows it further. */
  lemma SuppressionScope(o: Override, a: Assertion)
    ensures Suppresses(o, a) ==>
              o.iocId == a.target.iocId && o.observableType == a.target.observableType && o.kind == a.target.kind
    ensures Suppresses(o, a) ==> o.feedKey == None || o.feedKey == Some(a.feedKey)
    ensures Suppresses(o, a) ==> o.refType == None || o.refType == Some(a.refType)
    ensures Suppresses(o, a) ==> o.refId == None || o.refId == Some(a.refId)
    ensures Suppresses(o, a) ==> o.labelKey == Some(a.target.labelKey) || (o.entityId.Some? && o.entityId == a.entityId)
    ensures
      var wide := Override(a.target.iocId, a.target.observableType, a.target.kind, None, None, None, None, Some(a.target.labelKey));
      Suppresses(wide, a)
    ensures a.entityId.Some? ==>
      var wide := Override(a.target.iocId, a.target.observableType, a.target.kind, None, None, None, a.entityId, None);
      Suppresses(wide, a)
    ensures Suppresses(o, a) ==>
              Suppresses(o.(feedKey := None), a) && Suppresses(o.(refType := None), a) && Suppresses(o.(refId := None), a)
    ensures Suppresses(o, a) ==>
              Suppresses(o.(feedKey := Some(a.feedKey)), a) && Suppresses(o.(refType := Some(a.refType)), a)
              && Suppresses(o.(refId := Some(a.refId)), a)
  {
  }

  /** The row counts for the label: it is of this label, current, and no override hides it. */
  ghost predicate Shown(db: Db, t: Target, id: int) {
    && id in db.assertions && db.assertions[id].target == t && db.assertions[id].current
    && forall o :: o in db.overrides ==> !Suppresses(o, db.assertions[id])
  }

  ghost predicate HasIoc(db: Db, t: Target) {
    (t.iocId, t.observableType) in db.iocs
  }

  /** Some row that counts has no entity yet. */
  ghost predicate Open(db: Db, t: Target) {
    exists id :: Shown(db, t, id) && db.assertions[id].entityId.None?
  }

  ghost predicate FullyLinked(db: Db, t: Target) {
    (exists id :: Shown(db, t, id)) && !Open(db, t)
  }

  /** The rows that count point to this entity of the catalog and to no other. */
  ghost predicate PointsOnlyTo(db: Db, t: Target, e: int) {
    && InCatalog(db, t.kind, e) && (exists id :: Shown(db, t, id) && db.assertions[id].entityId == Some(e))
    && forall id :: Shown(db, t, id) && db.assertions[id].entityId.Some? && InCatalog(db, t.kind, db.assertions[id].entityId.value) ==>
                      db.assertions[id].entityId == Some(e)
  }

  /** The entity is the one the request asks for: by id, or by the name to create. */
  ghost predicate Asked(db: Db, req: Request, e: int)
    requires e in db.catalog
  {
    match req.mode
    case LinkTo(wanted) => e == wanted
    case CreateNew(v, _) => db.catalog[e].value.nameKey == v.nameKey
  }

  lemma ShownIsVisible(db: Db, t: Target)
    ensures forall id :: Shown(db, t, id) <==> id in VisibleRows(db, t)
    ensures Open(db, t) <==> UnlinkedVisible(db, t) != {}
    ensures (exists id :: Shown(db, t, id)) <==> VisibleRows(db, t) != {}
  {
    forall id
      ensures Shown(db, t, id) <==> id in VisibleRows(db, t)
    {
    }
    if UnlinkedVisible(db, t) != {} {
      var id := SomeMember(UnlinkedVisible(db, t));
      assert Shown(db, t, id);
    }
    if VisibleRows(db, t) != {} {
      var id := SomeMember(VisibleRows(db, t));
      assert Shown(db, t, id);
    }
    if Open(db, t) {
      var id :| Shown(db, t, id) && db.assertions[id].entityId.None?;
      assert id in UnlinkedVisible(db, t);
    }
  }

  lemma LinkedIsOnly(db: Db, t: Target, e: int)
    ensures LinkedEntities(db, t) == {e} <==> PointsOnlyTo(db, t, e)
  {
    ShownIsVisible(db, t);
    var linked := LinkedEntities(db, t);
    if linked == {e} {
      assert e in linked;
      forall id | Shown(db, t, id) && db.assertions[id].entityId.Some? && InCatalog(db, t.kind, db.assertions[id].entityId.value)
        ensures db.assertions[id].entityId == Some(e)
      {
        assert db.assertions[id].entityId.value in linked;
      }
    }
    if PointsOnlyTo(db, t, e) {
      assert e in linked;
      assert forall x :: x in linked ==> x == e;
    }
  }

  // ----- the answers ---------------------------------------------------------------------------

  /** Before the catalog is looked at: unknown IOC, unknown label, a label that is linked already, or an open one. */
  lemma LabelVerdict(db: Db, req: Request, returned: set<int>)
    ensures
      var d, t := Decide(db, req, returned), req.target;
      && (d == Answer(Rejected(IocNotFound)) <==> !HasIoc(db, t))
      && (d == Answer(Rejected(LabelNotFound)) <==> HasIoc(db, t) && !exists id :: Shown(db, t, id))
      && (d == Answer(Rejected(LinkedElsewhere)) <==>
            HasIoc(db, t) && FullyLinked(db, t) && !exists e :: PointsOnlyTo(db, t, e) && Asked(db, req, e))
      && (forall e :: d == Answer(AlreadyLinked(e)) <==>
            HasIoc(db, t) && FullyLinked(db, t) && PointsOnlyTo(db, t, e) && Asked(db, req, e))
  {
    var t := req.target;
    ShownIsVisible(db, t);
    forall e
      ensures LinkedEntities(db, t) == {e} <==> PointsOnlyTo(db, t, e)
    {
      LinkedIsOnly(db, t, e);
    }
  }

  /** A link to an existing entity of an open label. */
  lemma LinkVerdict(db: Db, req: Request, returned: set<int>)
    requires HasIoc(db, req.target) && Open(db, req.target) && req.mode.LinkTo?
    ensures
      var d, kind, e := Decide(db, req, returned), req.target.kind, req.mode.entityId;
      && (d == Answer(Rejected(EntityNotFound)) <==> e !in db.catalog || db.catalog[e].kind != kind)
      && (d == Answer(Rejected(EntityInactive)) <==> e in db.catalog && db.catalog[e].kind == kind && !db.catalog[e].active)
      && (d == Answer(Rejected(EntityNotLinkable)) <==>
            e in db.catalog && db.catalog[e].kind == kind && db.catalog[e].active
            && kind == ThreatActor && db.catalog[e].value.slug == "unknown")
      && (d == ProceedWith(e) <==>
            e in db.catalog && db.catalog[e].kind == kind && db.catalog[e].active
            && !(kind == ThreatActor && db.catalog[e].value.slug == "unknown"))
  {
    ShownIsVisible(db, req.target);
  }

  /** A catalog row of the kind that has the name, an alias or the slug to be created. */
  predicate IsSame(db: Db, kind: Kind, v: Value, id: int) {
    id in db.catalog && db.catalog[id].kind == kind && (!(db.catalog[id].value.keys !! v.keys) || db.catalog[id].value.slug == v.slug)
  }

  /** One whose name or alias has the same letters and digits. */
  predicate IsAlike(db: Db, kind: Kind, v: Value, id: int) {
    id in db.catalog && db.catalog[id].kind == kind && !(db.catalog[id].value.compacts !! v.compacts)
  }

  lemma CollisionsAre(db: Db, kind: Kind, v: Value)
    ensures forall id :: id in ExactlyColliding(db, kind, v) <==> IsSame(db, kind, v, id)
    ensures forall id :: id in Colliding(db, kind, v) <==> IsSame(db, kind, v, id) || IsAlike(db, kind, v, id)
  {
    forall a: set<string>, b: set<string>
      ensures a * b != {} <==> !(a !! b)
    {
      assert forall x :: x in a && x in b ==> x in a * b;
    }
  }

  /** A create on an open label: refused for a sameness that the check returned, or an unconfirmed likeness. */
  lemma CreateVerdict(db: Db, req: Request, returned: set<int>)
    requires HasIoc(db, req.target) && Open(db, req.target) && req.mode.CreateNew?
    ensures
      var d, kind, v := Decide(db, req, returned), req.target.kind, req.mode.value;
      var same := exists id :: id in returned && IsSame(db, kind, v, id);
      && (d == Answer(Rejected(DuplicateEntity)) <==> same)
      && (d == Answer(Rejected(PotentialDuplicates)) <==> !same && returned != {} && !req.mode.confirmDistinct)
      && (d == ProceedToInsert <==> !same && (returned == {} || req.mode.confirmDistinct))
  {
    var kind, v := req.target.kind, req.mode.value;
    ShownIsVisible(db, req.target);
    CollisionsAre(db, kind, v);
    var exact := ExactlyColliding(db, kind, v);
    if returned * exact != {} {
      var id := SomeMember(returned * exact);
      assert id in returned && IsSame(db, kind, v, id);
    } else {
      assert forall id :: id in returned && id in exact ==> id in returned * exact;
      assert returned - exact == returned;
    }
  }

  /** The check returns active rows before inactive ones, and within each by name; it returns all rows up to twenty. */
  lemma CheckOrder(db: Db, kind: Kind, v: Value, returned: set<int>, x: int, y: int)
    requires IsCheckResult(db, kind, v, returned) && y in returned && x in Colliding(db, kind, v)
    ensures y in db.catalog
    ensures db.catalog[x].active && !db.catalog[y].active ==> x in returned
    ensures db.catalog[x].active == db.catalog[y].active && db.catalog[x].value.order < db.catalog[y].value.order ==> x in returned
    ensures |returned| <= 20 && (|Colliding(db, kind, v)| <= 20 ==> x in returned)
  {
    SubsetCardinality(returned, Colliding(db, kind, v));
  }

  // ----- unconfirmed creates -------------------------------------------------------------------

  /** The request has got past its duplicate check. */
  predicate PastCheck(pc: Pc) {
    pc.ReadyToInsert? || pc.InsertedRow? || (pc.Finished? && pc.outcome.CreatedAndLinked?)
  }

  /** Step k is the request's check, and no entity of the kind is the same or alike. */
  ghost predicate ChecksClean(states: seq<State>, steps: seq<Step>, k: nat, p: nat)
    requires k < |steps| < |states|
  {
    && steps[k].LoadAndDecide? && steps[k].p == p && p in states[k].procs && states[k].procs[p].req.mode.CreateNew?
    && var db, kind, v := states[k].db, states[k].procs[p].req.target.kind, states[k].procs[p].req.mode.value;
       forall id :: !IsSame(db, kind, v, id) && !IsAlike(db, kind, v, id)
  }

  lemma CleanWhenUnconfirmed(s: State, step: Step, p: nat)
    requires Enabled(s, step) && LockInv(s) && p in s.procs && p in Apply(s, step).procs
    requires s.procs[p].req.mode.CreateNew? && !s.procs[p].req.mode.confirmDistinct
    requires !PastCheck(s.procs[p].pc) && PastCheck(Apply(s, step).procs[p].pc)
    ensures step.LoadAndDecide? && step.p == p && step.returned == {}
    ensures
      var kind, v := s.procs[p].req.target.kind, s.procs[p].req.mode.value;
      forall id :: !IsSame(s.db, kind, v, id) && !IsAlike(s.db, kind, v, id)
  {
    assert PlaceFits(s.procs[p]);
    OnlyTheActorMoves(s, step);
    assert step.LoadAndDecide? && step.p == p;
    var req := s.procs[p].req;
    assert Decide(s.db, req, step.returned) == ProceedToInsert;
    PassedUnconfirmed(s.db, req, step.returned);
  }

  lemma PassedUnconfirmed(db: Db, req: Request, returned: set<int>)
    requires req.mode.CreateNew? && !req.mode.confirmDistinct && IsCheckResult(db, req.target.kind, req.mode.value, returned)
    requires Decide(db, req, returned) == ProceedToInsert
    ensures returned == {}
    ensures forall id :: !IsSame(db, req.target.kind, req.mode.value, id) && !IsAlike(db, req.target.kind, req.mode.value, id)
  {
    var kind, v := req.target.kind, req.mode.value;
    ShownIsVisible(db, req.target);
    CreateVerdict(db, req, returned);
    CollisionsAre(db, kind, v);
    assert Colliding(db, kind, v) == {};
  }

  /**
   In every run, a create that did not confirm to be distinct and got past its check had read a catalog
   without any entity of its kind that is the same or alike.
   */
  lemma {:induction false} UnconfirmedCreateMetNothing(states: seq<State>, steps: seq<Step>, i: nat, p: nat) returns (k: nat)
    requires IsRun(states, steps) && Init(states[0]) && i <= |steps| && p in states[0].procs && p in states[i].procs
    requires states[i].procs[p].req.mode.CreateNew? && !states[i].procs[p].req.mode.confirmDistinct
    requires PastCheck(states[i].procs[p].pc)
    ensures k < i && ChecksClean(states, steps, k, p)
  {
    assert i > 0;
    var s, step := states[i - 1], steps[i - 1];
    assert StepAt(states, steps, i - 1);
    RunKeepsLockInv(states, steps, i - 1);
    OnlyTheActorMoves(s, step);
    if PastCheck(s.procs[p].pc) {
      k := UnconfirmedCreateMetNothing(states, steps, i - 1, p);
    } else {
      CleanWhenUnconfirmed(s, step, p);
      k := i - 1;
    }
  }

  // ----- what a commit writes ------------------------------------------------------------------

  /** A create adds its entity, active, under a new id; a link adds none. Nothing else in the catalog changes. */
  lemma CommitWritesCatalog(db: Db, req: Request, e: int)
    ensures
      var db' := CommitDb(db, req, e);
      && db'.iocs == db.iocs && db'.overrides == db.overrides
      && (req.mode.LinkTo? ==> db'.catalog == db.catalog)
      && (req.mode.CreateNew? ==>
            && e in db'.catalog && db'.catalog[e] == Entity(req.target.kind, req.mode.value, true)
            && forall id :: id != e ==> (id in db'.catalog <==> id in db.catalog) && (id in db.catalog ==> db'.catalog[id] == db.catalog[id]))
  {
  }

  /** Reporting a claim again makes it current, withdrawing it hides it; neither moves it to another label. */
  lemma ReportsAndWithdrawals(s: State, id: int, e: Option<int>)
    requires id in s.db.assertions
    ensures
      var a, a1 := s.db.assertions[id], Apply(s, Reingest(id, e)).db.assertions[id];
      a1.current && SameClaim(a, a1) && a1.resolvedBy == a.resolvedBy && a1.entityId == if Pinned(a) then a.entityId else e
    ensures
      var a, a1 := s.db.assertions[id], Apply(s, Withdraw(id)).db.assertions[id];
      a1 == Assertion(a.target, a.entityId, a.analyst, a.resolvedBy, false, a.feedKey, a.refType, a.refId)
  {
  }
}
