/**
 The whole import seen at once: which rows it inserts, which updates it makes, and what each row holds
 before each update, whichever of several tied rows the database picks. From this: when the counters
 of the full mode add up.
 */
module ImportFlat {
  import opened Options
  import opened ImportMerge
  import opened ImportMergeProofs

  // ----- the import without its chunks ---------------------------------------------------------

  function ChunkSize(entries: seq<Entry>, size: nat): (n: nat)
    requires size > 0
    ensures n <= |entries| && (entries != [] ==> n > 0)
  {
    if |entries| <= size then |entries| else size
  }

  /** All rows the import inserts. */
  function AllFresh(t: Table, call: Call, entries: seq<Entry>, size: nat): seq<Row>
    requires size > 0
    decreases |entries|
  {
    if entries == [] then []
    else
      var n := ChunkSize(entries, size);
      var added := FreshRows(t, call, entries[..n]);
      added + AllFresh(t + added, call, entries[n..], size)
  }

  /** All entries it treats as duplicates, in order. */
  function AllDuplicates(t: Table, call: Call, entries: seq<Entry>, size: nat): seq<Entry>
    requires size > 0
    decreases |entries|
  {
    if entries == [] then []
    else
      var n := ChunkSize(entries, size);
      Duplicates(t, call, entries[..n]) + AllDuplicates(t + FreshRows(t, call, entries[..n]), call, entries[n..], size)
  }

  /** The table with all its insertions and none of its updates. */
  function Filled(t: Table, call: Call, entries: seq<Entry>, size: nat): Table
    requires size > 0
  {
    t + AllFresh(t, call, entries, size)
  }

  ghost predicate SameIdentities(t: Table, t': Table) {
    |t| == |t'| && Grows(t, t')
  }

  lemma PresentSame(t: Table, t': Table, observableType: string, observable: string)
    requires SameIdentities(t, t')
    ensures Present(t, observableType, observable) <==> Present(t', observableType, observable)
  {
    assert forall i :: 0 <= i < |t| ==> SameIdentity(t[i], t'[i]);
  }

  lemma {:induction false} ChunkSame(t: Table, t': Table, call: Call, chunk: seq<Entry>)
    requires SameIdentities(t, t')
    ensures FreshRows(t, call, chunk) == FreshRows(t', call, chunk) && Duplicates(t, call, chunk) == Duplicates(t', call, chunk)
  {
    if chunk != [] {
      ChunkSame(t, t', call, chunk[..|chunk| - 1]);
      PresentSame(t, t', call.observableType, chunk[|chunk| - 1].observable);
    }
  }

  /** Updates do not influence what is inserted or updated later. */
  lemma {:induction false} AllSame(t: Table, t': Table, call: Call, entries: seq<Entry>, size: nat)
    requires size > 0 && SameIdentities(t, t')
    ensures AllFresh(t, call, entries, size) == AllFresh(t', call, entries, size)
    ensures AllDuplicates(t, call, entries, size) == AllDuplicates(t', call, entries, size)
    decreases |entries|
  {
    if entries != [] {
      var n := ChunkSize(entries, size);
      ChunkSame(t, t', call, entries[..n]);
      var added := FreshRows(t, call, entries[..n]);
      AllSame(t + added, t' + added, call, entries[n..], size);
    }
  }

  lemma ChosenBeside(t: Table, beside: seq<Row>, u: Update, pick: nat)
    requires forall r :: r in beside ==> r.observable != u.observable
    ensures Chosen(t + beside, u, pick) == Chosen(t, u, pick)
  {
    forall k | |t| <= k < |t + beside|
      ensures !Selects(u, (t + beside)[k])
    {
      assert (t + beside)[k] in beside;
    }
    ChosenStays(t, t + beside, u, pick);
  }

  lemma UpdateOneBeside(t: Table, beside: seq<Row>, call: Call, e: Entry, done: nat)
    requires forall r :: r in beside ==> r.observable != e.observable
    ensures UpdateDuplicate(t + beside, call, e, done)
         == (UpdateDuplicate(t, call, e, done).0 + beside, UpdateDuplicate(t, call, e, done).1)
  {
    var u, pick := UpdateOf(call, e), call.pick(done);
    ChosenBeside(t, beside, u, pick);
    var i := Chosen(t, u, pick);
    if i.Some? {
      assert (t + beside)[i.value] == t[i.value];
      assert (t + beside)[i.value := Merged(u, t[i.value])] == t[i.value := Merged(u, t[i.value])] + beside;
    }
  }

  /** Rows of other observables stand aside. */
  lemma {:induction false} UpdateBeside(t: Table, beside: seq<Row>, call: Call, dups: seq<Entry>, c: Counts)
    requires forall e, r :: e in dups && r in beside ==> r.observable != e.observable
    ensures UpdateDuplicates(t + beside, call, dups, c)
         == (UpdateDuplicates(t, call, dups, c).0 + beside, UpdateDuplicates(t, call, dups, c).1)
  {
    if dups != [] {
      var front, e := dups[..|dups| - 1], dups[|dups| - 1];
      UpdateBeside(t, beside, call, front, c);
      var (t1, c1) := UpdateDuplicates(t, call, front, c);
      UpdateOneBeside(t1, beside, call, e, Done(call.mode, c1));
    }
  }

  lemma OneMoreUpdate(t: Table, call: Call, dups: seq<Entry>, e: Entry, c: Counts)
    ensures
      var (t1, c1) := UpdateDuplicates(t, call, dups, c);
      var (t2, status) := UpdateDuplicate(t1, call, e, Done(call.mode, c1));
      UpdateDuplicates(t, call, dups + [e], c) == (t2, Count(call.mode, c1, status))
  {
    assert (dups + [e])[..|dups|] == dups;
  }

  lemma {:induction false} UpdateInParts(t: Table, call: Call, a: seq<Entry>, b: seq<Entry>, c: Counts)
    ensures UpdateDuplicates(t, call, a + b, c)
         == UpdateDuplicates(UpdateDuplicates(t, call, a, c).0, call, b, UpdateDuplicates(t, call, a, c).1)
  {
    if b == [] {
      assert a + b == a;
    } else {
      var front, e := b[..|b| - 1], b[|b| - 1];
      UpdateInParts(t, call, a, front, c);
      OneMoreUpdate(t, call, a + front, e, c);
      OneMoreUpdate(UpdateDuplicates(t, call, a, c).0, call, front, e, UpdateDuplicates(t, call, a, c).1);
      assert a + b == (a + front) + [e] && b == front + [e];
    }
  }

  function Plus(c: Counts, inserted: nat): Counts {
    c.(inserted := c.inserted + inserted)
  }

  lemma CountCarries(mode: Mode, c: Counts, status: Status, k: nat)
    ensures Count(mode, Plus(c, k), status) == Plus(Count(mode, c, status), k) && Done(mode, Plus(c, k)) == Done(mode, c)
  {
  }

  /** The insert counter is only carried along. */
  lemma {:induction false} InsertedIsCarried(t: Table, call: Call, dups: seq<Entry>, c: Counts, k: nat)
    ensures UpdateDuplicates(t, call, dups, Plus(c, k)).0 == UpdateDuplicates(t, call, dups, c).0
    ensures UpdateDuplicates(t, call, dups, Plus(c, k)).1 == Plus(UpdateDuplicates(t, call, dups, c).1, k)
  {
    if dups != [] {
      var front, e := dups[..|dups| - 1], dups[|dups| - 1];
      InsertedIsCarried(t, call, front, c, k);
      var (t1, c1) := UpdateDuplicates(t, call, front, c);
      CountCarries(call.mode, c1, UpdateDuplicate(t1, call, e, Done(call.mode, c1)).1, k);
    }
  }

  lemma {:induction false} FreshIsAbsent(t: Table, call: Call, entries: seq<Entry>, size: nat)
    requires size > 0
    ensures forall r :: r in AllFresh(t, call, entries, size) ==> !Present(t, call.observableType, r.observable)
    decreases |entries|
  {
    if entries != [] {
      var n := ChunkSize(entries, size);
      var added := FreshRows(t, call, entries[..n]);
      FreshRowsAreEntries(t, call, entries[..n]);
      FreshIsAbsent(t + added, call, entries[n..], size);
      forall r | r in AllFresh(t + added, call, entries[n..], size)
        ensures !Present(t, call.observableType, r.observable)
      {
        if Present(t, call.observableType, r.observable) {
          PresentStays(t, t + added, call.observableType, r.observable);
        }
      }
    }
  }

  /** The updates of one chunk, made before or after the insertions of the later ones. */
  lemma ChunkIsFlat(t: Table, call: Call, dups: seq<Entry>, c: Counts, later: seq<Row>, more: seq<Entry>)
    requires forall e, r :: e in dups && r in later ==> r.observable != e.observable
    ensures
      var (t1, c1) := UpdateDuplicates(t, call, dups, c);
      UpdateDuplicates(t1 + later, call, more, Plus(c1, |later|)) == UpdateDuplicates(t + later, call, dups + more, Plus(c, |later|))
  {
    UpdateBeside(t, later, call, dups, c);
    InsertedIsCarried(t + later, call, dups, c, |later|);
    UpdateInParts(t + later, call, dups, more, Plus(c, |later|));
  }

  lemma HeadThenRest(t: Table, call: Call, head: seq<Entry>, rest: seq<Entry>, size: nat, c: Counts)
    requires size > 0
    ensures
      var t0, dups := t + FreshRows(t, call, head), Duplicates(t, call, head);
      var later, more := AllFresh(t0, call, rest, size), AllDuplicates(t0, call, rest, size);
      var (t1, c1) := ImportChunk(t, call, head, c);
      UpdateDuplicates(Filled(t1, call, rest, size), call, AllDuplicates(t1, call, rest, size), Plus(c1, |AllFresh(t1, call, rest, size)|))
      == UpdateDuplicates(t0 + later, call, dups + more, Plus(Plus(c, |FreshRows(t, call, head)|), |later|))
  {
    var added, dups := FreshRows(t, call, head), Duplicates(t, call, head);
    var t0, c0 := t + added, Plus(c, |added|);
    DuplicatesTouch(t0, call, dups, c0, dups);
    AllSame(t0, ImportChunk(t, call, head, c).0, call, rest, size);
    LaterRowsStandAside(t, call, head, rest, size);
    ChunkIsFlat(t0, call, dups, c0, AllFresh(t0, call, rest, size), AllDuplicates(t0, call, rest, size));
  }

  /** Inserting everything first and then making all updates comes to the same. */
  lemma {:induction false} ImportIsFlat(t: Table, call: Call, entries: seq<Entry>, size: nat, c: Counts)
    requires size > 0
    ensures Import(t, call, entries, size, c)
         == UpdateDuplicates(Filled(t, call, entries, size), call, AllDuplicates(t, call, entries, size),
                             Plus(c, |AllFresh(t, call, entries, size)|))
    decreases |entries|
  {
    if entries == [] {
      assert t + [] == t;
    } else {
      var n := ChunkSize(entries, size);
      var head, rest := entries[..n], entries[n..];
      var (t1, c1) := ImportChunk(t, call, head, c);
      ImportIsFlat(t1, call, rest, size, c1);
      HeadThenRest(t, call, head, rest, size, c);
      ImportUnfolds(t, call, entries, size, c);
      Regroup(t, FreshRows(t, call, head), AllFresh(t + FreshRows(t, call, head), call, rest, size), c);
    }
  }

  lemma ImportUnfolds(t: Table, call: Call, entries: seq<Entry>, size: nat, c: Counts)
    requires size > 0 && entries != []
    ensures
      var head, rest := entries[..ChunkSize(entries, size)], entries[ChunkSize(entries, size)..];
      var added := FreshRows(t, call, head);
      && Import(t, call, entries, size, c) == Import(ImportChunk(t, call, head, c).0, call, rest, size, ImportChunk(t, call, head, c).1)
      && AllFresh(t, call, entries, size) == added + AllFresh(t + added, call, rest, size)
      && AllDuplicates(t, call, entries, size) == Duplicates(t, call, head) + AllDuplicates(t + added, call, rest, size)
  {
  }

  lemma Regroup(t: Table, added: seq<Row>, later: seq<Row>, c: Counts)
    ensures (t + added) + later == t + (added + later)
    ensures Plus(Plus(c, |added|), |later|) == Plus(c, |added + later|)
  {
  }

  lemma LaterRowsStandAside(t: Table, call: Call, head: seq<Entry>, rest: seq<Entry>, size: nat)
    requires size > 0
    ensures forall e, r :: e in Duplicates(t, call, head) && r in AllFresh(t + FreshRows(t, call, head), call, rest, size) ==>
              r.observable != e.observable
  {
    var t0 := t + FreshRows(t, call, head);
    FreshIsAbsent(t0, call, rest, size);
    DuplicatesAreEntries(t, call, head);
    forall e | e in Duplicates(t, call, head)
      ensures Present(t0, call.observableType, e.observable)
    {
      PresentStays(t, t0, call.observableType, e.observable);
    }
  }

  /** An entry whose observable is stored is treated as a duplicate; every inserted row comes from an entry. */
  lemma {:induction false} FlatEntries(t: Table, call: Call, entries: seq<Entry>, size: nat)
    requires size > 0
    ensures forall e :: e in entries && Present(t, call.observableType, e.observable) ==> e in AllDuplicates(t, call, entries, size)
    ensures forall e :: e in AllDuplicates(t, call, entries, size) ==> e in entries
    ensures forall r :: r in AllFresh(t, call, entries, size) ==> exists e :: e in entries && r == NewRow(call, e)
    decreases |entries|
  {
    if entries != [] {
      var n := ChunkSize(entries, size);
      var head, rest := entries[..n], entries[n..];
      var t0 := t + FreshRows(t, call, head);
      assert entries == head + rest;
      FreshRowsAreEntries(t, call, head);
      DuplicatesAreEntries(t, call, head);
      FlatEntries(t0, call, rest, size);
      forall e | e in rest && Present(t, call.observableType, e.observable)
        ensures e in AllDuplicates(t0, call, rest, size)
      {
        PresentStays(t, t0, call.observableType, e.observable);
      }
    }
  }

  // ----- what a row holds before each update ---------------------------------------------------

  datatype Payload = Payload(url: Option<string>, category: Option<string>, note: Option<string>)

  function PayloadOf(e: Entry): Payload {
    Payload(e.url, e.category, e.note)
  }

  function Holds(r: Row): Payload {
    Payload(r.url, r.category, r.note)
  }

  /** The row update k goes to; None when it finds none or its query throws. */
  function Aim(t: Table, call: Call, dups: seq<Entry>, k: nat): (r: Option<nat>)
    requires k < |dups|
    ensures r.Some? ==> IsEarliest(t, UpdateOf(call, dups[k]), r.value)
  {
    if dups[k].observable in call.broken then None else Chosen(t, UpdateOf(call, dups[k]), call.pick(k))
  }

  /** What row i holds before update k: the payload of the last update aimed at it, or what was stored. */
  function Held(t: Table, call: Call, dups: seq<Entry>, k: nat, i: nat): Payload
    requires k <= |dups| && i < |t|
  {
    if k == 0 then Holds(t[i])
    else if Aim(t, call, dups, k - 1) == Some(i) then PayloadOf(dups[k - 1])
    else Held(t, call, dups, k - 1, i)
  }

  /** How update k ends: without a row, with its row as it would leave it, or with a change. */
  function Predicted(t: Table, call: Call, dups: seq<Entry>, k: nat): Status
    requires k < |dups|
  {
    var i := Aim(t, call, dups, k);
    if i.None? then NotFound
    else if Held(t, call, dups, k, i.value) == PayloadOf(dups[k]) then Unchanged
    else Updated
  }

  /** Update k says what its row already holds: what was stored or inserted, or what an earlier entry of the list put there. */
  predicate RepeatsItsRow(t: Table, call: Call, dups: seq<Entry>, k: nat)
    requires k < |dups|
  {
    var i := Aim(t, call, dups, k);
    i.Some? && Held(t, call, dups, k, i.value) == PayloadOf(dups[k])
  }

  function Statuses(t: Table, call: Call, dups: seq<Entry>): seq<Status> {
    seq(|dups|, k requires 0 <= k < |dups| => Predicted(t, call, dups, k))
  }

  /** Every row of the table is as predicted before update n. */
  ghost predicate AsPredicted(t: Table, call: Call, dups: seq<Entry>, n: nat, t': Table)
    requires n <= |dups|
  {
    && SameIdentities(t, t')
    && forall i :: 0 <= i < |t| ==> Holds(t'[i]) == Held(t, call, dups, n, i)
  }

  /** What one update does to the rows, in terms of the row it aims at. */
  lemma UpdateGoesToAim(t: Table, call: Call, dups: seq<Entry>, n: nat, t1: Table)
    requires n < |dups| && SameIdentities(t, t1)
    ensures
      var (t2, status) := UpdateDuplicate(t1, call, dups[n], n);
      var i := Aim(t, call, dups, n);
      && SameIdentities(t, t2)
      && (forall k :: 0 <= k < |t| && Some(k) != i ==> t2[k] == t1[k])
      && (i.None? ==> status.NotFound?)
      && (i.Some? ==> Holds(t2[i.value]) == PayloadOf(dups[n]))
      && (i.Some? ==> status == if Holds(t1[i.value]) == PayloadOf(dups[n]) then Unchanged else Updated)
  {
    var u := UpdateOf(call, dups[n]);
    ChosenStays(t, t1, u, call.pick(n));
    UpdatedMeansChanged(t1, u, call.pick(n));
    GrowsTransitive(t, t1, UpdateDuplicate(t1, call, dups[n], n).0);
  }

  lemma OneUpdate(t: Table, call: Call, dups: seq<Entry>, n: nat, t1: Table)
    requires n < |dups| && AsPredicted(t, call, dups, n, t1)
    ensures
      var (t2, status) := UpdateDuplicate(t1, call, dups[n], n);
      AsPredicted(t, call, dups, n + 1, t2) && status == Predicted(t, call, dups, n)
  {
    UpdateGoesToAim(t, call, dups, n, t1);
  }

  function CountAll(mode: Mode, c: Counts, statuses: seq<Status>): Counts {
    if statuses == [] then c
    else Count(mode, CountAll(mode, c, statuses[..|statuses| - 1]), statuses[|statuses| - 1])
  }

  /** What the counters say about the updates of a call. */
  lemma {:induction false} CountersTell(mode: Mode, c: Counts, statuses: seq<Status>)
    ensures
      var c' := CountAll(mode, c, statuses);
      && Done(mode, c') == Done(mode, c) + |statuses| && c'.inserted == c.inserted
      && c'.skipped >= c.skipped && (c'.skipped == c.skipped <==> Unchanged !in statuses)
      && c'.updated >= c.updated && (mode.CountOnly? ==> (c'.updated == c.updated <==> Updated !in statuses))
      && (mode.Full? ==> c'.updated == c.updated)
  {
    if statuses != [] {
      var n := |statuses| - 1;
      CountersTell(mode, c, statuses[..n]);
      assert statuses == statuses[..n] + [statuses[n]];
    }
  }

  lemma StatusAt(t: Table, call: Call, dups: seq<Entry>, k: nat)
    requires k < |dups|
    ensures |Statuses(t, call, dups)| == |dups| && Statuses(t, call, dups)[k] == Predicted(t, call, dups, k)
  {
  }

  lemma NextCount(mode: Mode, c: Counts, statuses: seq<Status>, m: nat)
    requires m < |statuses|
    ensures CountAll(mode, c, statuses[..m + 1]) == Count(mode, CountAll(mode, c, statuses[..m]), statuses[m])
  {
    assert statuses[..m + 1][..m] == statuses[..m];
  }

  lemma UpdatesMade(t: Table, call: Call, dups: seq<Entry>, c: Counts)
    requires Done(call.mode, c) == 0
    ensures Done(call.mode, UpdateDuplicates(t, call, dups, c).1) == |dups|
  {
    DuplicatesAccounted(t, call, dups, c);
  }

  /** The updates leave every row as predicted. */
  lemma {:induction false} RowsAsPredicted(t: Table, call: Call, dups: seq<Entry>, n: nat, c: Counts)
    requires Done(call.mode, c) == 0 && n <= |dups|
    ensures AsPredicted(t, call, dups, n, UpdateDuplicates(t, call, dups[..n], c).0)
    decreases n
  {
    if n == 0 {
      assert UpdateDuplicates(t, call, dups[..0], c) == (t, c);
    } else {
      var m := n - 1;
      RowsAsPredicted(t, call, dups, m, c);
      UpdatesMade(t, call, dups[..m], c);
      OneMoreUpdate(t, call, dups[..m], dups[m], c);
      assert dups[..n] == dups[..m] + [dups[m]];
      OneUpdate(t, call, dups, m, UpdateDuplicates(t, call, dups[..m], c).0);
    }
  }

  /** The counters are those of the predicted endings. */
  lemma {:induction false} CountsAsPredicted(t: Table, call: Call, dups: seq<Entry>, n: nat, c: Counts, statuses: seq<Status>)
    requires Done(call.mode, c) == 0 && n <= |dups| && statuses == Statuses(t, call, dups) && |statuses| == |dups|
    ensures UpdateDuplicates(t, call, dups[..n], c).1 == CountAll(call.mode, c, statuses[..n])
    decreases n
  {
    if n == 0 {
      assert UpdateDuplicates(t, call, dups[..0], c) == (t, c);
    } else {
      CountsAsPredicted(t, call, dups, n - 1, c, statuses);
      RowsAsPredicted(t, call, dups, n - 1, c);
      UpdatesMade(t, call, dups[..n - 1], c);
      OneMoreUpdate(t, call, dups[..n - 1], dups[n - 1], c);
      assert dups[..n] == dups[..n - 1] + [dups[n - 1]];
      NextCount(call.mode, c, statuses, n - 1);
      StatusAt(t, call, dups, n - 1);
      OneUpdate(t, call, dups, n - 1, UpdateDuplicates(t, call, dups[..n - 1], c).0);
    }
  }

  /** The same of a whole import. */
  lemma ImportAsPredicted(t: Table, call: Call, entries: seq<Entry>, size: nat)
    requires size > 0
    ensures
      var filled, dups := Filled(t, call, entries, size), AllDuplicates(t, call, entries, size);
      var (t1, c1) := Import(t, call, entries, size, NO_COUNTS);
      && AsPredicted(filled, call, dups, |dups|, t1)
      && c1 == CountAll(call.mode, Plus(NO_COUNTS, |AllFresh(t, call, entries, size)|), Statuses(filled, call, dups))
  {
    var filled, dups := Filled(t, call, entries, size), AllDuplicates(t, call, entries, size);
    ImportIsFlat(t, call, entries, size, NO_COUNTS);
    var c, st := Plus(NO_COUNTS, |AllFresh(t, call, entries, size)|), Statuses(filled, call, dups);
    RowsAsPredicted(filled, call, dups, |dups|, c);
    CountsAsPredicted(filled, call, dups, |dups|, c, st);
    assert dups[..|dups|] == dups && st[..|dups|] == st;
  }

  lemma NoRepeatPredicted(t: Table, call: Call, dups: seq<Entry>)
    ensures Unchanged !in Statuses(t, call, dups) <==> forall k :: 0 <= k < |dups| ==> !RepeatsItsRow(t, call, dups, k)
  {
    forall k | 0 <= k < |dups|
      ensures Statuses(t, call, dups)[k] == Unchanged <==> RepeatsItsRow(t, call, dups, k)
    {
      StatusAt(t, call, dups, k);
    }
  }

  // ----- the counters of the full mode ---------------------------------------------------------

  /**
   In full mode the four counters add up to the entries plus the skipped ones, which are counted twice.
   They add up to the entries exactly when no duplicate finds its row holding its own payload already,
   be it from the stored row, the inserted one or an earlier entry of the list.
   */
  lemma FullModeTotal(t: Table, call: Call, entries: seq<Entry>, size: nat)
    requires size > 0 && call.mode.Full?
    ensures
      var c := Import(t, call, entries, size, NO_COUNTS).1;
      var filled, dups := Filled(t, call, entries, size), AllDuplicates(t, call, entries, size);
      && Total(c) == |entries| + c.skipped
      && (Total(c) == |entries| <==> forall k :: 0 <= k < |dups| ==> !RepeatsItsRow(filled, call, dups, k))
  {
    var filled, dups := Filled(t, call, entries, size), AllDuplicates(t, call, entries, size);
    EveryEntryIsCountedOnce(t, call, entries, size, NO_COUNTS);
    ImportAsPredicted(t, call, entries, size);
    CountersTell(call.mode, Plus(NO_COUNTS, |AllFresh(t, call, entries, size)|), Statuses(filled, call, dups));
    NoRepeatPredicted(filled, call, dups);
  }

  /** One stored row and one entry that says the same: two counts for one entry. */
  lemma FullModeCountsTwice(call: Call)
    requires call.mode.Full? && call.broken == {}
    ensures
      var t := [Row("192.0.2.1", call.observableType, "feed", None, None, Some("a"), None, None, None, 0)];
      var entries := [Entry("192.0.2.1", "feed", None, None, Some("a"))];
      Total(Import(t, call, entries, 150, NO_COUNTS).1) == 2
  {
    var t := [Row("192.0.2.1", call.observableType, "feed", None, None, Some("a"), None, None, None, 0)];
    var e := Entry("192.0.2.1", "feed", None, None, Some("a"));
    assert Present(t, call.observableType, e.observable) by {
      assert t[0].observable == e.observable;
    }
    assert Duplicates(t, call, [e]) == [e] && FreshRows(t, call, [e]) == [] by {
      assert [e][..0] == [];
    }
    assert t + [] == t && [e][..1] == [e] && [e][1..] == [];
    assert Selects(UpdateOf(call, e), t[0]);
    var i := Chosen(t, UpdateOf(call, e), call.pick(0));
    assert i == Some(0) && !Differs(UpdateOf(call, e), t[0]);
    assert UpdateDuplicates(t, call, [], NO_COUNTS) == (t, NO_COUNTS) && [e][..0] == [];
    assert UpdateDuplicates(t, call, [e], NO_COUNTS) == (t, Counts(0, 0, 1, 1));
  }
}
