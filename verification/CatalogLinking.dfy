/**
 Linking a source-reported label to a catalog entity, or creating the entity and linking it. Many
 requests run at once; each goes through its transaction statement by statement, holding the
 advisory locks it has taken, while ingestion, overrides and the catalog admin page change the same
 tables. Names enter as their normalised keys.
 */
module CatalogLinking {
  import opened Options

  datatype Kind = ThreatActor | MalwareFamily

  const UNKNOWN_SLUG := "unknown"

  /** The LIMIT of the duplicate check. */
  const COLLISION_LIMIT: nat := 20

  /** What a link request addresses: one label of one kind on one IOC. It is also its lock key. */
  datatype Target = Target(iocId: int, observableType: string, kind: Kind, labelKey: string)

  /** One source's claim. `analyst` tells whether its resolution method is the analyst's link. */
  datatype Assertion = Assertion(
    target: Target, entityId: Option<int>, analyst: bool, resolvedBy: Option<string>, current: bool,
    feedKey: string, refType: string, refId: string)

  /** An active suppression. */
  datatype Override = Override(
    iocId: int, observableType: string, kind: Kind, feedKey: Option<string>, refType: Option<string>,
    refId: Option<string>, entityId: Option<int>, labelKey: Option<string>)

  /**
   `keys` are the normalised name and aliases, `compacts` their letters-and-digits forms, and `order`
   is the place of the name in the database's collation.
   */
  datatype Value = Value(nameKey: string, keys: set<string>, slug: string, compacts: set<string>, order: int)

  datatype Entity = Entity(kind: Kind, value: Value, active: bool)

  datatype Db = Db(
    iocs: set<(int, string)>, assertions: map<int, Assertion>, overrides: set<Override>, catalog: map<int, Entity>)

  datatype Mode = LinkTo(entityId: int) | CreateNew(value: Value, confirmDistinct: bool)

  datatype Request = Request(target: Target, mode: Mode, actor: Option<string>)

  datatype Rejection =
    IocNotFound | LabelNotFound | LinkedElsewhere | EntityNotFound | EntityInactive | EntityNotLinkable
    | DuplicateEntity | PotentialDuplicates | DatabaseError

  datatype Outcome =
    AlreadyLinked(entityId: int) | LinkedNow(entityId: int) | CreatedAndLinked(entityId: int) | Rejected(why: Rejection)

  // ----- reading the tables --------------------------------------------------------------------

  predicate Matches(wanted: Option<string>, actual: string) {
    wanted.None? || wanted.value == actual
  }

  predicate Suppresses(o: Override, a: Assertion) {
    && o.iocId == a.target.iocId && o.observableType == a.target.observableType && o.kind == a.target.kind
    && Matches(o.feedKey, a.feedKey) && Matches(o.refType, a.refType) && Matches(o.refId, a.refId)
    && ((o.entityId.Some? && o.entityId == a.entityId) || (o.labelKey.Some? && o.labelKey.value == a.target.labelKey))
  }

  predicate IsVisible(db: Db, a: Assertion) {
    a.current && !(exists o :: o in db.overrides && Suppresses(o, a))
  }

  function RowsOf(db: Db, t: Target): set<int> {
    set id | id in db.assertions && db.assertions[id].target == t
  }

  function VisibleRows(db: Db, t: Target): set<int> {
    set id | id in db.assertions && db.assertions[id].target == t && IsVisible(db, db.assertions[id])
  }

  function UnlinkedVisible(db: Db, t: Target): set<int> {
    set id | id in VisibleRows(db, t) && db.assertions[id].entityId.None?
  }

  /** The catalog entities the visible rows already point to. */
  function LinkedEntities(db: Db, t: Target): set<int> {
    set id | id in VisibleRows(db, t) && db.assertions[id].entityId.Some?
             && InCatalog(db, t.kind, db.assertions[id].entityId.value) :: db.assertions[id].entityId.value
  }

  predicate InCatalog(db: Db, kind: Kind, e: int) {
    e in db.catalog && db.catalog[e].kind == kind
  }

  predicate ExactCollision(e: Entity, kind: Kind, v: Value) {
    e.kind == kind && (e.value.keys * v.keys != {} || e.value.slug == v.slug)
  }

  predicate SimilarCollision(e: Entity, kind: Kind, v: Value) {
    e.kind == kind && e.value.compacts * v.compacts != {}
  }

  function Colliding(db: Db, kind: Kind, v: Value): set<int> {
    set id | id in db.catalog && (ExactCollision(db.catalog[id], kind, v) || SimilarCollision(db.catalog[id], kind, v))
  }

  function ExactlyColliding(db: Db, kind: Kind, v: Value): set<int> {
    set id | id in db.catalog && ExactCollision(db.catalog[id], kind, v)
  }

  /** ORDER BY active DESC, name ASC puts a before b. */
  predicate Sooner(a: Entity, b: Entity) {
    (a.active && !b.active) || (a.active == b.active && a.value.order < b.value.order)
  }

  /** These n rows are the first ones of `all` in that order; rows of equal rank may come in any order. */
  ghost predicate IsFirst(catalog: map<int, Entity>, all: set<int>, n: nat, first: set<int>)
    requires all <= catalog.Keys
  {
    && first <= all && |first| == n
    && forall x, y :: x in first && y in all && y !in first ==> !Sooner(catalog[y], catalog[x])
  }

  function CheckSize(all: set<int>): nat {
    if |all| <= COLLISION_LIMIT then |all| else COLLISION_LIMIT
  }

  /** What the duplicate check returns: the first colliding rows, cut off at the LIMIT. */
  ghost predicate IsCheckResult(db: Db, kind: Kind, v: Value, returned: set<int>) {
    IsFirst(db.catalog, Colliding(db, kind, v), CheckSize(Colliding(db, kind, v)), returned)
  }

  /** An analyst's link, which re-ingestion never replaces. */
  predicate Pinned(a: Assertion) {
    a.analyst && a.entityId.Some?
  }

  /** The conflict target of the assertion upsert. */
  predicate SameClaim(a: Assertion, b: Assertion) {
    a.target == b.target && a.feedKey == b.feedKey && a.refType == b.refType && a.refId == b.refId
  }

  /** ON CONFLICT DO UPDATE of the assertion upsert: the source reports the claim again. */
  function Reported(a: Assertion, entityId: Option<int>): Assertion {
    if Pinned(a) then a.(current := true) else a.(entityId := entityId, analyst := false, current := true)
  }

  // ----- the transaction -----------------------------------------------------------------------

  datatype Decision = Answer(outcome: Outcome) | ProceedWith(entityId: int) | ProceedToInsert

  /** Everything between taking the label lock and the first write. */
  function Decide(db: Db, req: Request, returned: set<int>): Decision {
    var t := req.target;
    if (t.iocId, t.observableType) !in db.iocs then Answer(Rejected(IocNotFound))
    else if VisibleRows(db, t) == {} then Answer(Rejected(LabelNotFound))
    else if UnlinkedVisible(db, t) == {} then Answer(DecideLinked(db, req))
    else
      match req.mode
      case LinkTo(e) =>
        if !InCatalog(db, t.kind, e) then Answer(Rejected(EntityNotFound))
        else if !db.catalog[e].active then Answer(Rejected(EntityInactive))
        else if t.kind.ThreatActor? && db.catalog[e].value.slug == UNKNOWN_SLUG then Answer(Rejected(EntityNotLinkable))
        else ProceedWith(e)
      case CreateNew(v, confirmDistinct) =>
        if returned * ExactlyColliding(db, t.kind, v) != {} then Answer(Rejected(DuplicateEntity))
        else if returned - ExactlyColliding(db, t.kind, v) != {} && !confirmDistinct then Answer(Rejected(PotentialDuplicates))
        else ProceedToInsert
  }

  /** A retry or a concurrent analyst: the existing resolution counts only when it is the one requested. */
  function DecideLinked(db: Db, req: Request): Outcome {
    var linked := LinkedEntities(db, req.target);
    match req.mode
    case LinkTo(e) => if linked == {e} then AlreadyLinked(e) else Rejected(LinkedElsewhere)
    case CreateNew(v, _) =>
      if exists e :: e in linked && linked == {e} && db.catalog[e].value.nameKey == v.nameKey then
        var e :| e in linked && linked == {e} && db.catalog[e].value.nameKey == v.nameKey;
        AlreadyLinked(e)
      else Rejected(LinkedElsewhere)
  }

  /** UPDATE ... WHERE target AND entity_id IS NULL. */
  function LinkRows(assertions: map<int, Assertion>, t: Target, e: int, actor: Option<string>): map<int, Assertion> {
    map id | id in assertions ::
      if assertions[id].target == t && assertions[id].entityId.None? then
        assertions[id].(entityId := Some(e), analyst := true, resolvedBy := actor)
      else assertions[id]
  }

  datatype Pc =
    | Start
    | HasCreateLock
    | HasLabelLock
    | ReadyToLink(entityId: int)
    | ReadyToInsert
    | InsertedRow(entityId: int)
    | Finished(outcome: Outcome)

  datatype Proc = Proc(req: Request, pc: Pc)

  datatype State = State(db: Db, procs: map<nat, Proc>, nextId: int)

  predicate HoldsCreateLock(p: Proc) {
    p.req.mode.CreateNew? && !p.pc.Start? && !p.pc.Finished?
  }

  predicate HoldsLabelLock(p: Proc) {
    p.pc.HasLabelLock? || p.pc.ReadyToLink? || p.pc.ReadyToInsert? || p.pc.InsertedRow?
  }

  datatype Step =
    | TakeCreateLock(p: nat)
    | TakeLabelLock(p: nat)
    | LoadAndDecide(p: nat, returned: set<int>)
    | Insert(p: nat)
    | UpdateAndCommit(p: nat, lost: bool)
    | Fail(p: nat)
    | Ingest(id: int, row: Assertion)
    | Reingest(id: int, reported: Option<int>)
    | Backfill(id: int, entityId: int)
    | Withdraw(id: int)
    | SetOverrides(overrides: set<Override>)
    | AdminCreate(entity: Entity)
    | AdminUpdate(id: int, value: Value, active: bool)

  predicate IsRequestStep(step: Step) {
    step.TakeCreateLock? || step.TakeLabelLock? || step.LoadAndDecide? || step.Insert? || step.UpdateAndCommit? || step.Fail?
  }

  predicate HasPendingSlug(p: Proc, kind: Kind, slug: string) {
    p.pc.InsertedRow? && p.req.mode.CreateNew? && p.req.target.kind == kind && p.req.mode.value.slug == slug
  }

  /**
   The slug unique constraint sees committed rows, but for the one being updated, and rows another
   open transaction has inserted.
   */
  ghost predicate SlugFree(s: State, kind: Kind, slug: string, self: Option<int>) {
    && (forall id :: id in s.db.catalog && Some(id) != self && s.db.catalog[id].kind == kind ==>
                       s.db.catalog[id].value.slug != slug)
    && (forall q :: q in s.procs ==> !HasPendingSlug(s.procs[q], kind, slug))
  }

  ghost predicate Enabled(s: State, step: Step) {
    match step
    case TakeCreateLock(p) =>
      && p in s.procs && s.procs[p].pc.Start? && s.procs[p].req.mode.CreateNew?
      && forall q :: q in s.procs && HoldsCreateLock(s.procs[q]) ==>
                       s.procs[q].req.target.kind != s.procs[p].req.target.kind
    case TakeLabelLock(p) =>
      && p in s.procs
      && (if s.procs[p].req.mode.CreateNew? then s.procs[p].pc.HasCreateLock? else s.procs[p].pc.Start?)
      && forall q :: q in s.procs && HoldsLabelLock(s.procs[q]) ==> s.procs[q].req.target != s.procs[p].req.target
    case LoadAndDecide(p, returned) =>
      && p in s.procs && s.procs[p].pc.HasLabelLock?
      && (s.procs[p].req.mode.CreateNew? ==>
            IsCheckResult(s.db, s.procs[p].req.target.kind, s.procs[p].req.mode.value, returned))
    case Insert(p) => p in s.procs && s.procs[p].pc.ReadyToInsert? && s.procs[p].req.mode.CreateNew?
    case UpdateAndCommit(p, _) => p in s.procs && (s.procs[p].pc.ReadyToLink? || s.procs[p].pc.InsertedRow?)
    case Fail(p) => p in s.procs && !s.procs[p].pc.Finished?
    case Ingest(id, row) =>
      id !in s.db.assertions && forall k :: k in s.db.assertions ==> !SameClaim(s.db.assertions[k], row)
    case Reingest(id, _) => id in s.db.assertions
    case Backfill(id, _) => id in s.db.assertions && s.db.assertions[id].entityId.None?
    case Withdraw(id) => id in s.db.assertions
    case SetOverrides(_) => true
    case AdminCreate(entity) => SlugFree(s, entity.kind, entity.value.slug, None)
    case AdminUpdate(id, value, _) =>
      && id in s.db.catalog && SlugFree(s, s.db.catalog[id].kind, value.slug, Some(id))
      && forall q :: q in s.procs ==> s.procs[q].pc != ReadyToLink(id)
  }

  function Goto(s: State, p: nat, pc: Pc): State
    requires p in s.procs
  {
    s.(procs := s.procs[p := s.procs[p].(pc := pc)])
  }

  function DecisionPc(d: Decision): Pc {
    match d
    case Answer(outcome) => Finished(outcome)
    case ProceedWith(e) => ReadyToLink(e)
    case ProceedToInsert => ReadyToInsert
  }

  /** COMMIT: the new catalog row, if any, and the linked assertions appear together. */
  function CommitDb(db: Db, req: Request, e: int): Db {
    var linked := LinkRows(db.assertions, req.target, e, req.actor);
    if req.mode.CreateNew? then
      db.(assertions := linked, catalog := db.catalog[e := Entity(req.target.kind, req.mode.value, true)])
    else db.(assertions := linked)
  }

  ghost function Apply(s: State, step: Step): State
    requires Enabled(s, step)
  {
    match step
    case TakeCreateLock(p) => Goto(s, p, HasCreateLock)
    case TakeLabelLock(p) => Goto(s, p, HasLabelLock)
    case LoadAndDecide(p, returned) => Goto(s, p, DecisionPc(Decide(s.db, s.procs[p].req, returned)))
    case Insert(p) =>
      if SlugFree(s, s.procs[p].req.target.kind, s.procs[p].req.mode.value.slug, None) then
        Goto(s, p, InsertedRow(s.nextId)).(nextId := s.nextId + 1)
      else Goto(s, p, Finished(Rejected(DuplicateEntity)))
    case UpdateAndCommit(p, lost) =>
      var e := s.procs[p].pc.entityId;
      Goto(s.(db := CommitDb(s.db, s.procs[p].req, e)), p,
           Finished(if lost then Rejected(DatabaseError)
                    else if s.procs[p].req.mode.CreateNew? then CreatedAndLinked(e) else LinkedNow(e)))
    case Fail(p) => Goto(s, p, Finished(Rejected(DatabaseError)))
    case Ingest(id, row) => s.(db := s.db.(assertions := s.db.assertions[id := row]))
    case Reingest(id, e) =>
      s.(db := s.db.(assertions := s.db.assertions[id := Reported(s.db.assertions[id], e)]))
    case Backfill(id, e) =>
      s.(db := s.db.(assertions := s.db.assertions[id := s.db.assertions[id].(entityId := Some(e), analyst := false)]))
    case Withdraw(id) =>
      s.(db := s.db.(assertions := s.db.assertions[id := s.db.assertions[id].(current := false)]))
    case SetOverrides(overrides) => s.(db := s.db.(overrides := overrides))
    case AdminCreate(entity) =>
      s.(db := s.db.(catalog := s.db.catalog[s.nextId := entity]), nextId := s.nextId + 1)
    case AdminUpdate(id, value, active) =>
      s.(db := s.db.(catalog := s.db.catalog[id := Entity(s.db.catalog[id].kind, value, active)]))
  }

  ghost predicate Init(s: State) {
    && (forall p :: p in s.procs ==> s.procs[p].pc.Start?)
    && (forall id :: id in s.db.catalog ==> id < s.nextId)
  }

  ghost predicate IsRun(states: seq<State>, steps: seq<Step>) {
    && |states| == |steps| + 1
    && forall i :: 0 <= i < |steps| ==> StepAt(states, steps, i)
  }

  ghost predicate StepAt(states: seq<State>, steps: seq<Step>, i: nat)
    requires i < |steps| < |states|
  {
    Enabled(states[i], steps[i]) && states[i + 1] == Apply(states[i], steps[i])
  }
}
