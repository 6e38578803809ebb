/** The create form and the link transaction as the code runs them, with nobody else writing. */
module CatalogTables {
  import opened Options
  import opened Sets
  import opened CatalogLinking

  const MAX_CATALOG_ALIASES: nat := 32
  const MAX_DESCRIPTION: nat := 4000

  datatype FormError =
    NameRequired | NameTooLong | NoSlug | ReservedName | AliasTooLong | TooManyAliases | DescriptionTooLong

  /** `name`, `aliases` and `description` arrive trimmed, with inner blanks collapsed and empties dropped. */
  datatype Form = Form(name: string, aliases: seq<string>, description: string)

  datatype Checked = Refused(error: FormError) | Accepted(slug: string, aliases: seq<string>)

  function MaxName(kind: Kind): nat {
    if kind.ThreatActor? then 100 else 128
  }

  function KeySet(key: string -> string, names: seq<string>): set<string> {
    set i | 0 <= i < |names| :: key(names[i])
  }

  ghost predicate DistinctKeys(key: string -> string, names: seq<string>) {
    forall i, j :: 0 <= i < j < |names| ==> key(names[i]) != key(names[j])
  }

  /** `at` are the places of the kept aliases: in order, and each the first alias with its key, which is not the name's. */
  ghost predicate IsFirstOf(key: string -> string, name: string, given: seq<string>, kept: seq<string>, at: seq<nat>) {
    && |at| == |kept| && (forall i, j :: 0 <= i < j < |at| ==> at[i] < at[j])
    && forall i :: 0 <= i < |at| ==>
         at[i] < |given| && kept[i] == given[at[i]] && key(given[at[i]]) !in KeySet(key, [name] + given[..at[i]])
  }

  ghost predicate KeptFirst(key: string -> string, name: string, given: seq<string>, kept: seq<string>) {
    exists at :: IsFirstOf(key, name, given, kept, at)
  }

  lemma FirstOfMore(key: string -> string, name: string, given: seq<string>, k: nat, kept: seq<string>, at: seq<nat>)
    requires k < |given| && IsFirstOf(key, name, given[..k], kept, at)
    ensures IsFirstOf(key, name, given[..k + 1], kept, at)
    ensures key(given[k]) !in KeySet(key, [name] + given[..k]) ==>
              IsFirstOf(key, name, given[..k + 1], kept + [given[k]], at + [k])
  {
    forall i | 0 <= i < |at|
      ensures given[..k + 1][..at[i]] == given[..k][..at[i]]
    {
    }
    assert given[..k + 1][..k] == given[..k];
  }

  /** What the form must satisfy: only distinct identity keys count towards the alias limit. */
  ghost predicate FormAcceptable(kind: Kind, form: Form, key: string -> string, slugOf: string -> string) {
    && form.name != "" && |form.name| <= MaxName(kind)
    && slugOf(form.name) != "" && !(kind.ThreatActor? && slugOf(form.name) == UNKNOWN_SLUG)
    && (forall a :: a in form.aliases ==> |a| <= MaxName(kind))
    && |KeySet(key, [form.name] + form.aliases)| <= 1 + MAX_CATALOG_ALIASES
    && |form.description| <= MAX_DESCRIPTION
  }

  /**
   validateCreateInput. An accepted form keeps exactly the identity keys it was given, each once, with
   the name first; `key` normalises a label and `slugOf` makes its slug.
   */
  method ValidateCreateInput(kind: Kind, form: Form, key: string -> string, slugOf: string -> string) returns (r: Checked)
    ensures r.Accepted? <==> FormAcceptable(kind, form, key, slugOf)
    ensures r == Refused(NameRequired) <==> form.name == ""
    ensures r == Refused(NameTooLong) <==> |form.name| > if kind == ThreatActor then 100 else 128
    ensures r == Refused(NoSlug) <==> 0 < |form.name| <= MaxName(kind) && slugOf(form.name) == ""
    ensures r == Refused(ReservedName) <==>
              0 < |form.name| <= MaxName(kind) && slugOf(form.name) == "unknown" && kind == ThreatActor
    ensures r == Refused(AliasTooLong) ==> exists a :: a in form.aliases && |a| > MaxName(kind)
    ensures r == Refused(TooManyAliases) ==> |KeySet(key, [form.name] + form.aliases)| > 33
    ensures r == Refused(DescriptionTooLong) ==> |form.description| > 4000
    ensures r.Accepted? ==> KeptFirst(key, form.name, form.aliases, r.aliases)
    ensures r.Accepted? ==>
              && r.slug == slugOf(form.name)
              && DistinctKeys(key, [form.name] + r.aliases)
              && KeySet(key, [form.name] + r.aliases) == KeySet(key, [form.name] + form.aliases)
  {
    if form.name == "" {
      return Refused(NameRequired);
    }
    if |form.name| > MaxName(kind) {
      return Refused(NameTooLong);
    }
    var slug := slugOf(form.name);
    if slug == "" {
      return Refused(NoSlug);
    }
    if kind.ThreatActor? && slug == UNKNOWN_SLUG {
      return Refused(ReservedName);
    }
    var tooLong, aliases := DistinctAliases(MaxName(kind), form.name, form.aliases, key);
    if tooLong {
      return Refused(AliasTooLong);
    }
    DistinctKeysCount(key, [form.name] + aliases);
    if |aliases| > MAX_CATALOG_ALIASES {
      return Refused(TooManyAliases);
    }
    if |form.description| > MAX_DESCRIPTION {
      return Refused(DescriptionTooLong);
    }
    return Accepted(slug, aliases);
  }

  /** The alias loop: keeps the first alias of every key, and stops at one that is too long. */
  method DistinctAliases(maxName: nat, name: string, given: seq<string>, key: string -> string)
    returns (tooLong: bool, aliases: seq<string>)
    ensures tooLong <==> exists a :: a in given && |a| > maxName
    ensures !tooLong ==> DistinctKeys(key, [name] + aliases) && KeySet(key, [name] + aliases) == KeySet(key, [name] + given)
    ensures !tooLong ==> KeptFirst(key, name, given, aliases)
  {
    tooLong, aliases := false, [];
    ghost var at: seq<nat> := [];
    var seen := {key(name)};
    NoAliasYet(key, name, given);
    for k := 0 to |given|
      invariant AliasState(key, name, given, k, seen, aliases, at)
      invariant forall m :: 0 <= m < k ==> |given[m]| <= maxName
    {
      if |given[k]| > maxName {
        return true, aliases;
      }
      AliasStep(key, name, given, k, seen, aliases, at);
      if key(given[k]) !in seen {
        aliases, at := aliases + [given[k]], at + [k];
      }
      seen := seen + {key(given[k])};
    }
    AliasesDone(maxName, key, name, given, seen, aliases, at);
  }

  lemma AliasesDone(
    maxName: nat, key: string -> string, name: string, given: seq<string>, seen: set<string>, aliases: seq<string>, at: seq<nat>)
    requires AliasState(key, name, given, |given|, seen, aliases, at) && forall m :: 0 <= m < |given| ==> |given[m]| <= maxName
    ensures DistinctKeys(key, [name] + aliases) && KeySet(key, [name] + aliases) == KeySet(key, [name] + given)
    ensures KeptFirst(key, name, given, aliases) && forall a :: a in given ==> |a| <= maxName
  {
    assert given[..|given|] == given;
  }

  /** The loop after k aliases: the keys seen, and the aliases kept from their places. */
  ghost predicate AliasState(
    key: string -> string, name: string, given: seq<string>, k: nat, seen: set<string>, aliases: seq<string>, at: seq<nat>)
    requires k <= |given|
  {
    && seen == KeySet(key, [name] + given[..k]) == KeySet(key, [name] + aliases)
    && DistinctKeys(key, [name] + aliases) && IsFirstOf(key, name, given[..k], aliases, at)
  }

  lemma NoAliasYet(key: string -> string, name: string, given: seq<string>)
    ensures AliasState(key, name, given, 0, {key(name)}, [], [])
  {
    KeySetSnoc(key, [], name);
    assert [] + [name] == [name] && [name] + given[..0] == [name];
  }

  lemma AliasStep(
    key: string -> string, name: string, given: seq<string>, k: nat, seen: set<string>, aliases: seq<string>, at: seq<nat>)
    requires k < |given| && AliasState(key, name, given, k, seen, aliases, at)
    ensures
      if key(given[k]) in seen then AliasState(key, name, given, k + 1, seen + {key(given[k])}, aliases, at)
      else AliasState(key, name, given, k + 1, seen + {key(given[k])}, aliases + [given[k]], at + [k])
  {
    OneMoreAlias(key, name, given, k, aliases);
    FirstOfMore(key, name, given, k, aliases, at);
    assert key(given[k]) in seen ==> seen + {key(given[k])} == seen;
  }

  lemma OneMoreAlias(key: string -> string, name: string, given: seq<string>, k: nat, aliases: seq<string>)
    requires k < |given| && DistinctKeys(key, [name] + aliases)
    ensures KeySet(key, [name] + given[..k + 1]) == KeySet(key, [name] + given[..k]) + {key(given[k])}
    ensures KeySet(key, [name] + (aliases + [given[k]])) == KeySet(key, [name] + aliases) + {key(given[k])}
    ensures key(given[k]) !in KeySet(key, [name] + aliases) ==> DistinctKeys(key, [name] + (aliases + [given[k]]))
  {
    KeySetSnoc(key, [name] + given[..k], given[k]);
    KeySetSnoc(key, [name] + aliases, given[k]);
    assert [name] + given[..k] + [given[k]] == [name] + given[..k + 1];
    assert [name] + aliases + [given[k]] == [name] + (aliases + [given[k]]);
    if key(given[k]) !in KeySet(key, [name] + aliases) {
      DistinctSnoc(key, [name] + aliases, given[k]);
    }
  }

  lemma KeySetSnoc(key: string -> string, names: seq<string>, x: string)
    ensures KeySet(key, names + [x]) == KeySet(key, names) + {key(x)}
  {
    var all := names + [x];
    assert all[|names|] == x;
    assert forall i :: 0 <= i < |names| ==> all[i] == names[i];
    forall y | y in KeySet(key, names)
      ensures y in KeySet(key, all)
    {
      var i :| 0 <= i < |names| && key(names[i]) == y;
      assert key(all[i]) == y;
    }
    assert key(all[|names|]) in KeySet(key, all);
  }

  lemma {:induction false} DistinctKeysCount(key: string -> string, names: seq<string>)
    requires DistinctKeys(key, names)
    ensures |KeySet(key, names)| == |names|
  {
    if names == [] {
      assert KeySet(key, names) == {};
    } else {
      var front, x := names[..|names| - 1], names[|names| - 1];
      DistinctKeysCount(key, front);
      KeySetSnoc(key, front, x);
      assert names == front + [x];
      assert key(x) !in KeySet(key, front);
    }
  }

  lemma DistinctSnoc(key: string -> string, names: seq<string>, x: string)
    requires DistinctKeys(key, names) && key(x) !in KeySet(key, names)
    ensures DistinctKeys(key, names + [x])
  {
    forall i | 0 <= i < |names|
      ensures key(names[i]) != key(x)
    {
      assert key(names[i]) in KeySet(key, names);
    }
  }

  class CatalogStore {
    var db: Db
    var nextId: int

    constructor (db: Db, nextId: int)
      ensures this.db == db && this.nextId == nextId
    {
      this.db, this.nextId := db, nextId;
    }

    /** The EXISTS over the active suppressions. */
    method IsSuppressed(a: Assertion) returns (suppressed: bool)
      ensures suppressed <==> exists o :: o in db.overrides && Suppresses(o, a)
    {
      var rest := db.overrides;
      while rest != {}
        invariant rest <= db.overrides
        invariant forall o :: o in db.overrides && o !in rest ==> !Suppresses(o, a)
      {
        var o :| o in rest;
        if Suppresses(o, a) {
          return true;
        }
        rest := rest - {o};
      }
      return false;
    }

    /** loadLabelAssertions and summarizeLabelAssertions: the visible rows, the unlinked ones, and what the others point to. */
    method SummarizeLabel(t: Target) returns (visible: set<int>, unlinked: set<int>, linkedIds: set<int>)
      ensures visible == VisibleRows(db, t) && unlinked == UnlinkedVisible(db, t)
      ensures forall e :: e in linkedIds <==> exists id :: id in visible && db.assertions[id].entityId == Some(e)
    {
      visible, unlinked, linkedIds := {}, {}, {};
      var rest := db.assertions.Keys;
      while rest != {}
        invariant rest <= db.assertions.Keys
        invariant visible == set id | id in VisibleRows(db, t) && id !in rest
        invariant unlinked == set id | id in UnlinkedVisible(db, t) && id !in rest
        invariant forall e :: e in linkedIds <==> exists id :: id in visible && db.assertions[id].entityId == Some(e)
      {
        var id := PickRow(rest);
        var a := db.assertions[id];
        var suppressed := IsSuppressed(a);
        if a.target == t && a.current && !suppressed {
          ghost var before := visible;
          visible := visible + {id};
          if a.entityId.None? {
            unlinked := unlinked + {id};
          } else {
            linkedIds := linkedIds + {a.entityId.value};
          }
          assert forall k :: k in before ==> k in visible;
        }
        rest := rest - {id};
      }
    }

    /** fetchCatalogEntities: those of the ids that exist in the catalog of the kind. */
    method FetchEntities(kind: Kind, ids: set<int>) returns (found: set<int>)
      ensures found == set e | e in ids && InCatalog(db, kind, e)
    {
      found := {};
      var rest := ids;
      while rest != {}
        invariant rest <= ids
        invariant found == set e | e in ids && e !in rest && InCatalog(db, kind, e)
      {
        var e := PickRow(rest);
        if e in db.catalog && db.catalog[e].kind == kind {
          found := found + {e};
        }
        rest := rest - {e};
      }
    }

    /** The label is fully linked: the existing resolution counts only when it is the one requested. */
    method AnswerLinked(req: Request, linkedIds: set<int>) returns (outcome: Outcome)
      requires (set e | e in linkedIds && InCatalog(db, req.target.kind, e)) == LinkedEntities(db, req.target)
      ensures outcome == DecideLinked(db, req)
    {
      var linked := FetchEntities(req.target.kind, linkedIds);
      if |linked| != 1 {
        SingletonSize(linked);
        return Rejected(LinkedElsewhere);
      }
      var e := PickRow(linked);
      SingletonIs(linked, e);
      match req.mode
      case LinkTo(wanted) =>
        outcome := if e == wanted then AlreadyLinked(e) else Rejected(LinkedElsewhere);
      case CreateNew(v, _) =>
        outcome := if db.catalog[e].value.nameKey == v.nameKey then AlreadyLinked(e) else Rejected(LinkedElsewhere);
    }

    /** findCreateCollisions: the colliding rows the query returns, split into exact and similar ones. */
    method FindCreateCollisions(kind: Kind, v: Value) returns (exact: set<int>, similar: set<int>)
      ensures IsCheckResult(db, kind, v, exact + similar)
      ensures exact <= ExactlyColliding(db, kind, v) && similar !! ExactlyColliding(db, kind, v)
    {
      var all := set id | id in db.catalog && (ExactCollision(db.catalog[id], kind, v) || SimilarCollision(db.catalog[id], kind, v));
      assert all == Colliding(db, kind, v);
      var returned := FirstOf(all, CheckSize(all));
      exact, similar := SplitCollisions(kind, v, returned);
    }

    /** The exact column of the query. */
    method SplitCollisions(kind: Kind, v: Value, returned: set<int>) returns (exact: set<int>, similar: set<int>)
      requires returned <= db.catalog.Keys
      ensures exact + similar == returned
      ensures exact <= ExactlyColliding(db, kind, v) && similar !! ExactlyColliding(db, kind, v)
    {
      exact, similar := {}, {};
      var rest := returned;
      while rest != {}
        invariant rest <= returned
        invariant forall id :: id in exact <==> id in returned && id !in rest && ExactCollision(db.catalog[id], kind, v)
        invariant forall id :: id in similar <==> id in returned && id !in rest && !ExactCollision(db.catalog[id], kind, v)
      {
        var x := PickRow(rest);
        if ExactCollision(db.catalog[x], kind, v) {
          exact := exact + {x};
        } else {
          similar := similar + {x};
        }
        rest := rest - {x};
      }
      assert forall id :: id in exact + similar <==> id in returned;
      assert exact + similar == returned;
      assert forall id :: id in exact ==> id in ExactlyColliding(db, kind, v);
      assert forall id :: id in similar ==> id !in ExactlyColliding(db, kind, v);
    }

    /** ORDER BY and LIMIT. */
    method FirstOf(all: set<int>, n: nat) returns (first: set<int>)
      requires all <= db.catalog.Keys && n <= |all|
      ensures IsFirst(db.catalog, all, n, first)
    {
      first := {};
      while |first| < n
        invariant |first| <= n && IsFirst(db.catalog, all, |first|, first)
      {
        assert |all - first| == |all| - |first|;
        var x := SoonestOf(all - first);
        first := first + {x};
      }
    }

    /** The row the ORDER BY puts first. */
    method SoonestOf(ids: set<int>) returns (x: int)
      requires ids != {} && ids <= db.catalog.Keys
      ensures x in ids && forall y :: y in ids ==> !Sooner(db.catalog[y], db.catalog[x])
    {
      x := PickRow(ids);
      var rest := ids - {x};
      while rest != {}
        invariant rest <= ids && x in ids && x !in rest
        invariant forall y :: y in ids && y !in rest ==> !Sooner(db.catalog[y], db.catalog[x])
      {
        var y := PickRow(rest);
        if Sooner(db.catalog[y], db.catalog[x]) {
          x := y;
        }
        rest := rest - {y};
      }
    }

    /** The UPDATE: every row of the label without an entity gets this one, as the analyst's link. */
    method LinkUnlinkedRows(t: Target, e: int, actor: Option<string>)
      modifies this`db
      ensures db == old(db).(assertions := LinkRows(old(db).assertions, t, e, actor))
    {
      var rows := db.assertions;
      var rest := rows.Keys;
      while rest != {}
        invariant rest <= db.assertions.Keys && rows.Keys == db.assertions.Keys && db == old(db)
        invariant forall id :: id in rest ==> rows[id] == db.assertions[id]
        invariant forall id :: id in rows && id !in rest ==> rows[id] == LinkRows(db.assertions, t, e, actor)[id]
      {
        var id := PickRow(rest);
        if rows[id].target == t && rows[id].entityId.None? {
          rows := rows[id := rows[id].(entityId := Some(e), analyst := true, resolvedBy := actor)];
        }
        rest := rest - {id};
      }
      assert forall id :: id in rows ==> rows[id] == LinkRows(db.assertions, t, e, actor)[id];
      assert rows.Keys == LinkRows(db.assertions, t, e, actor).Keys;
      assert rows == LinkRows(db.assertions, t, e, actor);
      db := db.(assertions := rows);
    }

    /**
     linkSourceLabelToCatalog after its input checks, with nobody else writing. `shown` are the rows the
     duplicate check returned. Every outcome is fixed, and the tables change only with a link.
     */
    method LinkSourceLabelToCatalog(req: Request) returns (outcome: Outcome, shown: set<int>)
      modifies this
      ensures CheckIsMade(old(db), req) ==> IsCheckResult(old(db), req.target.kind, req.mode.value, shown)
      ensures
        match Decide(old(db), req, shown)
        case Answer(o) => outcome == o && db == old(db)
        case ProceedWith(e) => outcome == LinkedNow(e) && db == CommitDb(old(db), req, e)
        case ProceedToInsert =>
          if TakesSlug(old(db), req.target.kind, req.mode.value.slug) then
            outcome == Rejected(DuplicateEntity) && db == old(db)
          else
            outcome == CreatedAndLinked(old(nextId)) && db == CommitDb(old(db), req, old(nextId))
      ensures nextId == if outcome.CreatedAndLinked? then old(nextId) + 1 else old(nextId)
      ensures db.iocs == old(db).iocs && db.overrides == old(db).overrides
      ensures outcome.CreatedAndLinked? ==>
                req.mode.CreateNew? && outcome.entityId == old(nextId)
                && db.catalog == old(db).catalog[old(nextId) := Entity(req.target.kind, req.mode.value, true)]
      ensures !outcome.CreatedAndLinked? ==> db.catalog == old(db).catalog
      ensures outcome.CreatedAndLinked? && !req.mode.confirmDistinct ==> shown == {}
      ensures outcome == Rejected(PotentialDuplicates) ==>
                req.mode.CreateNew? && !req.mode.confirmDistinct && shown != {}
                && forall id :: id in shown ==> !ExactCollision(old(db).catalog[id], req.target.kind, req.mode.value)
      ensures outcome.LinkedNow? || outcome.CreatedAndLinked? ==>
                forall id :: id in RowsOf(db, req.target) ==>
                  if old(db).assertions[id].entityId.None? then
                    Pinned(db.assertions[id]) && db.assertions[id].entityId == Some(outcome.entityId)
                  else db.assertions[id] == old(db).assertions[id]
    {
      shown := {};
      var t := req.target;
      if (t.iocId, t.observableType) !in db.iocs {
        return Rejected(IocNotFound), shown;
      }
      var visible, unlinked, linkedIds := SummarizeLabel(t);
      if visible == {} {
        return Rejected(LabelNotFound), shown;
      }
      if unlinked == {} {
        SummaryGivesEntities(db, t, linkedIds);
        outcome := AnswerLinked(req, linkedIds);
        return;
      }
      match req.mode
      case LinkTo(e) =>
        if e !in db.catalog || db.catalog[e].kind != t.kind {
          return Rejected(EntityNotFound), shown;
        }
        if !db.catalog[e].active {
          return Rejected(EntityInactive), shown;
        }
        if t.kind.ThreatActor? && db.catalog[e].value.slug == UNKNOWN_SLUG {
          return Rejected(EntityNotLinkable), shown;
        }
        LinkUnlinkedRows(t, e, req.actor);
        outcome := LinkedNow(e);
      case CreateNew(v, confirmDistinct) =>
        var exact, similar := FindCreateCollisions(t.kind, v);
        shown := exact + similar;
        assert shown * ExactlyColliding(db, t.kind, v) == exact && shown - ExactlyColliding(db, t.kind, v) == similar;
        if exact != {} {
          return Rejected(DuplicateEntity), shown;
        }
        if similar != {} && !confirmDistinct {
          return Rejected(PotentialDuplicates), shown;
        }
        if TakesSlug(db, t.kind, v.slug) {
          return Rejected(DuplicateEntity), shown;
        }
        db := db.(catalog := db.catalog[nextId := Entity(t.kind, v, true)]);
        LinkUnlinkedRows(t, nextId, req.actor);
        outcome := CreatedAndLinked(nextId);
        nextId := nextId + 1;
    }
  }

  /** The slug unique constraint would refuse the insert. */
  predicate TakesSlug(db: Db, kind: Kind, slug: string) {
    exists id :: id in db.catalog && db.catalog[id].kind == kind && db.catalog[id].value.slug == slug
  }

  /** The request reaches the duplicate check. */
  predicate CheckIsMade(db: Db, req: Request) {
    && req.mode.CreateNew? && (req.target.iocId, req.target.observableType) in db.iocs
    && UnlinkedVisible(db, req.target) != {}
  }

  method PickRow(ids: set<int>) returns (id: int)
    requires ids != {}
    ensures id in ids
  {
    ghost var member := SomeMember(ids);
    id :| id in ids;
  }

  lemma SingletonSize(a: set<int>)
    requires |a| != 1
    ensures forall e :: a != {e}
  {
  }

  lemma SingletonIs(a: set<int>, e: int)
    requires |a| == 1 && e in a
    ensures a == {e}
  {
    SubsetCardinality({e}, a);
  }

  lemma SummaryGivesEntities(db: Db, t: Target, linkedIds: set<int>)
    requires forall e :: e in linkedIds <==> exists id :: id in VisibleRows(db, t) && db.assertions[id].entityId == Some(e)
    ensures (set e | e in linkedIds && InCatalog(db, t.kind, e)) == LinkedEntities(db, t)
  {
    forall e
      ensures e in linkedIds && InCatalog(db, t.kind, e) <==> e in LinkedEntities(db, t)
    {
    }
  }
}
