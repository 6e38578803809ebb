/** When a second import of the same entries finds nothing left to do, whichever of tied rows the database picks. */
module ImportRepeat {
  import opened Options
  import opened ImportMerge
  import opened ImportMergeProofs
  import opened ImportFlat

  // ----- when rows are settled -----------------------------------------------------------------

  /** Both entries select the same rows of a table, if any. */
  predicate SameKey(e: Entry, f: Entry) {
    e.observable == f.observable && e.source == f.source && UrlKey(e.url) == UrlKey(f.url)
  }

  predicate HasRow(t: Table, call: Call, e: Entry) {
    exists i :: 0 <= i < |t| && Selects(UpdateOf(call, e), t[i])
  }

  /** Row i is one the database may pick for the entry. */
  ghost predicate Candidate(t: Table, call: Call, e: Entry, i: nat) {
    IsEarliest(t, UpdateOf(call, e), i)
  }

  /** The database has no choice: no two rows of the key tie. */
  ghost predicate Sole(t: Table, call: Call, e: Entry) {
    forall i: nat, j: nat :: Candidate(t, call, e, i) && Candidate(t, call, e, j) ==> i == j
  }

  /** Whichever row the database picks holds the entry's payload already. */
  ghost predicate Settled(t: Table, call: Call, e: Entry) {
    forall i: nat :: Candidate(t, call, e, i) ==> Holds(t[i]) == PayloadOf(e)
  }

  ghost predicate AllSettled(t: Table, call: Call, entries: seq<Entry>) {
    forall e :: e in entries ==> Settled(t, call, e)
  }

  /** Entries that meet in one row carry the same url, category and note. */
  ghost predicate Agree(entries: seq<Entry>, call: Call, t: Table) {
    forall e, f :: e in entries && f in entries && SameKey(e, f) && HasRow(t, call, e) ==> PayloadOf(e) == PayloadOf(f)
  }

  /**
   What can be told before the import: entries that will meet in a row agree, and where stored rows of
   an entry's key tie, they hold its payload already.
   */
  ghost predicate WillSettle(t: Table, call: Call, entries: seq<Entry>, size: nat)
    requires size > 0
  {
    && Agree(entries, call, Filled(t, call, entries, size))
    && forall e :: e in entries ==> Sole(t, call, e) || Settled(t, call, e)
  }

  lemma HasCandidate(t: Table, call: Call, e: Entry) returns (i: nat)
    requires HasRow(t, call, e)
    ensures Candidate(t, call, e, i)
  {
    i := FirstEarliest(t, UpdateOf(call, e)).value;
  }

  lemma SameCandidates(t: Table, t': Table, call: Call, e: Entry, i: nat)
    requires SameIdentities(t, t')
    ensures Candidate(t, call, e, i) <==> Candidate(t', call, e, i)
  {
    EarliestStays(t, t', UpdateOf(call, e), i);
  }

  /** Entries that can be taken to one row have the same key, and then all their rows in common. */
  lemma SharedRow(t: Table, call: Call, e: Entry, f: Entry, i: nat)
    requires i < |t| && Selects(UpdateOf(call, e), t[i]) && Selects(UpdateOf(call, f), t[i])
    ensures SameKey(e, f) && forall k: nat :: Candidate(t, call, e, k) <==> Candidate(t, call, f, k)
  {
    assert forall k :: 0 <= k < |t| ==> (Selects(UpdateOf(call, e), t[k]) <==> Selects(UpdateOf(call, f), t[k]));
  }

  // ----- a list of updates over settled rows ---------------------------------------------------

  lemma {:induction false} SettledRowsHold(t: Table, call: Call, dups: seq<Entry>, k: nat, i: nat)
    requires k <= |dups| && i < |t|
    requires forall m :: 0 <= m < k ==> Predicted(t, call, dups, m) != Updated
    ensures Held(t, call, dups, k, i) == Holds(t[i])
    decreases k
  {
    if k > 0 {
      SettledRowsHold(t, call, dups, k - 1, i);
      assert Predicted(t, call, dups, k - 1) != Updated;
    }
  }

  /** While nothing has changed, an update changes nothing exactly when it says what its row was found to hold. */
  lemma PredictedFromStored(t: Table, call: Call, dups: seq<Entry>, k: nat, i: nat)
    requires k < |dups| && Aim(t, call, dups, k) == Some(i)
    requires forall m :: 0 <= m < k ==> Predicted(t, call, dups, m) != Updated
    ensures Predicted(t, call, dups, k) != Updated <==> Holds(t[i]) == PayloadOf(dups[k])
  {
    SettledRowsHold(t, call, dups, k, i);
  }

  lemma QuietUpdateRepeats(t: Table, call: Call, dups: seq<Entry>, k: nat, i: nat)
    requires k < |dups| && Aim(t, call, dups, k) == Some(i)
    requires forall m :: 0 <= m < |dups| ==> Predicted(t, call, dups, m) != Updated
    ensures Holds(t[i]) == PayloadOf(dups[k])
  {
    PredictedFromStored(t, call, dups, k, i);
  }

  lemma SettledOnce(t: Table, call: Call, dups: seq<Entry>, k: nat)
    requires k < |dups| && AllSettled(t, call, dups)
    requires forall m :: 0 <= m < k ==> Predicted(t, call, dups, m) != Updated
    ensures Predicted(t, call, dups, k) != Updated
  {
    var i := Aim(t, call, dups, k);
    if i.Some? {
      assert Candidate(t, call, dups[k], i.value) && dups[k] in dups;
      PredictedFromStored(t, call, dups, k, i.value);
    }
  }

  /** With all entries settled, no choice of the database leads to an update. */
  lemma {:induction false} SettledStaysQuiet(t: Table, call: Call, dups: seq<Entry>, k: nat)
    requires k <= |dups| && AllSettled(t, call, dups)
    ensures forall m :: 0 <= m < k ==> Predicted(t, call, dups, m) != Updated
    decreases k
  {
    if k > 0 {
      SettledStaysQuiet(t, call, dups, k - 1);
      SettledOnce(t, call, dups, k - 1);
    }
  }

  /** An unsettled row is found when the database picks it. */
  lemma UnsettledRowIsUpdated(t: Table, call: Call, dups: seq<Entry>, k: nat, i: nat)
    requires k < |dups| && Candidate(t, call, dups[k], i) && Holds(t[i]) != PayloadOf(dups[k])
    requires dups[k].observable !in call.broken && call.pick(k) == i
    ensures exists m :: 0 <= m < |dups| && Predicted(t, call, dups, m) == Updated
  {
    if forall m :: 0 <= m < k ==> Predicted(t, call, dups, m) != Updated {
      PredictedFromStored(t, call, dups, k, i);
      assert Predicted(t, call, dups, k) == Updated;
    }
  }

  /** Importing entries that are all present is updating with all of them. */
  lemma {:induction false} PresentEntriesAreDuplicates(t: Table, call: Call, entries: seq<Entry>, size: nat)
    requires size > 0 && forall e :: e in entries ==> Present(t, call.observableType, e.observable)
    ensures AllFresh(t, call, entries, size) == [] && AllDuplicates(t, call, entries, size) == entries
    decreases |entries|
  {
    if entries != [] {
      var n := ChunkSize(entries, size);
      PresentChunk(t, call, entries[..n]);
      assert t + [] == t && entries[..n] + entries[n..] == entries;
      PresentEntriesAreDuplicates(t, call, entries[n..], size);
    }
  }

  lemma {:induction false} PresentChunk(t: Table, call: Call, chunk: seq<Entry>)
    requires forall e :: e in chunk ==> Present(t, call.observableType, e.observable)
    ensures FreshRows(t, call, chunk) == [] && Duplicates(t, call, chunk) == chunk
  {
    if chunk != [] {
      PresentChunk(t, call, chunk[..|chunk| - 1]);
      assert chunk == chunk[..|chunk| - 1] + [chunk[|chunk| - 1]];
    }
  }

  lemma QuietRowsHold(t: Table, call: Call, dups: seq<Entry>)
    ensures Updated !in Statuses(t, call, dups) <==> forall k :: 0 <= k < |dups| ==> Predicted(t, call, dups, k) != Updated
    ensures Updated !in Statuses(t, call, dups) ==> forall i :: 0 <= i < |t| ==> Held(t, call, dups, |dups|, i) == Holds(t[i])
  {
    forall k | 0 <= k < |dups|
      ensures Statuses(t, call, dups)[k] == Predicted(t, call, dups, k)
    {
      StatusAt(t, call, dups, k);
    }
    if Updated !in Statuses(t, call, dups) {
      forall i | 0 <= i < |t|
        ensures Held(t, call, dups, |dups|, i) == Holds(t[i])
      {
        SettledRowsHold(t, call, dups, |dups|, i);
      }
    }
  }

  /** An import of present entries inserts nothing and counts no update exactly when none is predicted. */
  lemma PresentImport(t: Table, call: Call, entries: seq<Entry>, size: nat)
    requires size > 0 && call.mode.CountOnly?
    requires forall e :: e in entries ==> Present(t, call.observableType, e.observable)
    ensures
      var (t', c) := Import(t, call, entries, size, NO_COUNTS);
      && c.inserted == 0
      && (c.updated == 0 <==> forall k :: 0 <= k < |entries| ==> Predicted(t, call, entries, k) != Updated)
      && SameIdentities(t, t')
      && (c.updated == 0 ==> forall i :: 0 <= i < |t| ==> Holds(t'[i]) == Holds(t[i]))
  {
    PresentEntriesAreDuplicates(t, call, entries, size);
    assert Filled(t, call, entries, size) == t;
    ImportAsPredicted(t, call, entries, size);
    CountersTell(call.mode, NO_COUNTS, Statuses(t, call, entries));
    QuietRowsHold(t, call, entries);
  }

  // ----- the first import ----------------------------------------------------------------------

  /** A row that only entries of one payload reach holds what was stored or that payload. */
  lemma {:induction false} HeldFromOnePayload(t: Table, call: Call, dups: seq<Entry>, k: nat, i: nat, p: Payload)
    requires k <= |dups| && i < |t|
    requires forall m :: 0 <= m < k && Aim(t, call, dups, m) == Some(i) ==> PayloadOf(dups[m]) == p
    ensures Held(t, call, dups, k, i) == p || Held(t, call, dups, k, i) == Holds(t[i])
    ensures (exists m :: 0 <= m < k && Aim(t, call, dups, m) == Some(i)) ==> Held(t, call, dups, k, i) == p
    decreases k
  {
    if k > 0 {
      HeldFromOnePayload(t, call, dups, k - 1, i, p);
    }
  }

  /** A row no update is aimed at holds what was stored. */
  lemma {:induction false} HeldWhenSpared(t: Table, call: Call, dups: seq<Entry>, k: nat, i: nat)
    requires k <= |dups| && i < |t|
    requires forall m :: 0 <= m < k ==> Aim(t, call, dups, m) != Some(i)
    ensures Held(t, call, dups, k, i) == Holds(t[i])
    decreases k
  {
    if k > 0 {
      HeldWhenSpared(t, call, dups, k - 1, i);
    }
  }

  /** The rows of an entry's key are all stored ones or all inserted ones. */
  lemma StoredOrInserted(t: Table, call: Call, entries: seq<Entry>, size: nat, e: Entry, i: nat)
    requires size > 0 && Candidate(Filled(t, call, entries, size), call, e, i)
    ensures Present(t, call.observableType, e.observable) ==> Candidate(t, call, e, i)
    ensures !Present(t, call.observableType, e.observable) ==>
              exists f :: f in entries && SameKey(e, f) && Holds(Filled(t, call, entries, size)[i]) == PayloadOf(f)
  {
    var filled, added := Filled(t, call, entries, size), AllFresh(t, call, entries, size);
    FreshIsAbsent(t, call, entries, size);
    FlatEntries(t, call, entries, size);
    if Present(t, call.observableType, e.observable) {
      assert forall k :: |t| <= k < |filled| ==> filled[k] in added;
      EarliestStays(t, filled, UpdateOf(call, e), i);
    } else {
      assert forall k :: 0 <= k < |t| ==> filled[k] == t[k];
      assert filled[i] in added;
      var f :| f in entries && filled[i] == NewRow(call, f);
      assert SameKey(e, f);
    }
  }

  /** Whatever the database picks, an import that meets the condition settles its entries. */
  lemma ImportSettles(t: Table, call: Call, entries: seq<Entry>, size: nat, e: Entry)
    requires size > 0 && call.broken == {} && WillSettle(t, call, entries, size) && e in entries
    ensures Settled(Import(t, call, entries, size, NO_COUNTS).0, call, e)
  {
    var filled, dups := Filled(t, call, entries, size), AllDuplicates(t, call, entries, size);
    var t1 := Import(t, call, entries, size, NO_COUNTS).0;
    ImportAsPredicted(t, call, entries, size);
    forall i: nat | Candidate(t1, call, e, i)
      ensures Holds(t1[i]) == PayloadOf(e)
    {
      SameCandidates(filled, t1, call, e, i);
      CandidateSettles(t, call, entries, size, e, i);
    }
  }

  lemma CandidateSettles(t: Table, call: Call, entries: seq<Entry>, size: nat, e: Entry, i: nat)
    requires size > 0 && call.broken == {} && WillSettle(t, call, entries, size) && e in entries
    requires Candidate(Filled(t, call, entries, size), call, e, i)
    ensures
      var dups := AllDuplicates(t, call, entries, size);
      Held(Filled(t, call, entries, size), call, dups, |dups|, i) == PayloadOf(e)
  {
    var filled, dups := Filled(t, call, entries, size), AllDuplicates(t, call, entries, size);
    FlatEntries(t, call, entries, size);
    StoredOrInserted(t, call, entries, size, e, i);
    forall m | 0 <= m < |dups| && Aim(filled, call, dups, m) == Some(i)
      ensures PayloadOf(dups[m]) == PayloadOf(e)
    {
      assert dups[m] in entries;
      SharedRow(filled, call, e, dups[m], i);
    }
    HeldFromOnePayload(filled, call, dups, |dups|, i, PayloadOf(e));
    if Present(t, call.observableType, e.observable) && !Settled(t, call, e) {
      var m :| 0 <= m < |dups| && dups[m] == e;
      assert Candidate(filled, call, e, Aim(filled, call, dups, m).value);
      StoredOrInserted(t, call, entries, size, e, Aim(filled, call, dups, m).value);
      assert Aim(filled, call, dups, m) == Some(i);
    }
  }

  /** Otherwise some choices of the database leave an entry unsettled. */
  lemma ImportMayNotSettle(t: Table, call: Call, entries: seq<Entry>, size: nat) returns (pick: nat -> nat, e: Entry)
    requires size > 0 && call.broken == {} && !WillSettle(t, call, entries, size)
    ensures e in entries && !Settled(Import(t, call.(pick := pick), entries, size, NO_COUNTS).0, call, e)
  {
    if !Agree(entries, call, Filled(t, call, entries, size)) {
      pick := call.pick;
      e := DisagreementRemains(t, call, entries, size);
    } else {
      e :| e in entries && !Sole(t, call, e) && !Settled(t, call, e);
      pick := SparingPick(t, call, entries, size, e);
    }
  }

  lemma DisagreementRemains(t: Table, call: Call, entries: seq<Entry>, size: nat) returns (e: Entry)
    requires size > 0 && !Agree(entries, call, Filled(t, call, entries, size))
    ensures e in entries && !Settled(Import(t, call, entries, size, NO_COUNTS).0, call, e)
  {
    var filled := Filled(t, call, entries, size);
    var t1 := Import(t, call, entries, size, NO_COUNTS).0;
    ImportAsPredicted(t, call, entries, size);
    var g, f :| g in entries && f in entries && SameKey(g, f) && HasRow(filled, call, g) && PayloadOf(g) != PayloadOf(f);
    var i := HasCandidate(filled, call, g);
    SharedRow(filled, call, g, f, i);
    SameCandidates(filled, t1, call, g, i);
    SameCandidates(filled, t1, call, f, i);
    e := if Holds(t1[i]) == PayloadOf(g) then f else g;
  }

  /** Of two tied rows, the database can always take the other one. */
  lemma SparingPick(t: Table, call: Call, entries: seq<Entry>, size: nat, e: Entry) returns (pick: nat -> nat)
    requires size > 0 && e in entries && !Sole(t, call, e) && !Settled(t, call, e)
    ensures !Settled(Import(t, call.(pick := pick), entries, size, NO_COUNTS).0, call, e)
  {
    var i: nat :| Candidate(t, call, e, i) && Holds(t[i]) != PayloadOf(e);
    var a: nat, b: nat :| Candidate(t, call, e, a) && Candidate(t, call, e, b) && a != b;
    var j := if a == i then b else a;
    pick := (_: nat) => j;
    var call1 := call.(pick := pick);
    var filled, dups := Filled(t, call1, entries, size), AllDuplicates(t, call1, entries, size);
    var t1 := Import(t, call1, entries, size, NO_COUNTS).0;
    StoredCandidates(t, call1, entries, size, e, i);
    StoredCandidates(t, call1, entries, size, e, j);
    forall m | 0 <= m < |dups|
      ensures Aim(filled, call1, dups, m) != Some(i)
    {
      if Candidate(filled, call1, dups[m], i) {
        SharedRow(filled, call1, e, dups[m], i);
        assert Candidate(filled, call1, dups[m], j);
      }
    }
    HeldWhenSpared(filled, call1, dups, |dups|, i);
    ImportAsPredicted(t, call1, entries, size);
    SameCandidates(filled, t1, call1, e, i);
    assert Candidate(t1, call, e, i);
  }

  lemma StoredCandidates(t: Table, call: Call, entries: seq<Entry>, size: nat, e: Entry, i: nat)
    requires size > 0 && Candidate(t, call, e, i)
    ensures Candidate(Filled(t, call, entries, size), call, e, i) && Filled(t, call, entries, size)[i] == t[i]
  {
    var filled, added := Filled(t, call, entries, size), AllFresh(t, call, entries, size);
    FreshIsAbsent(t, call, entries, size);
    assert forall k :: |t| <= k < |filled| ==> filled[k] in added;
    assert Present(t, call.observableType, e.observable);
    EarliestStays(t, filled, UpdateOf(call, e), i);
  }

  // ----- the second import ---------------------------------------------------------------------

  /** The second import counts no update. */
  predicate QuietRepeat(t: Table, call: Call, entries: seq<Entry>, size: nat, call2: Call, size2: nat)
    requires size > 0 && size2 > 0
  {
    Import(Import(t, call, entries, size, NO_COUNTS).0, call2, entries, size2, NO_COUNTS).1.updated == 0
  }

  /** It counts none whatever the database picks among tied rows, in both imports. */
  ghost predicate AlwaysQuiet(t: Table, call: Call, entries: seq<Entry>, size: nat, call2: Call, size2: nat)
    requires size > 0 && size2 > 0
  {
    forall p: nat -> nat, q: nat -> nat :: QuietRepeat(t, call.(pick := p), entries, size, call2.(pick := q), size2)
  }

  ghost predicate Repeatable(call: Call, size: nat, call2: Call, size2: nat) {
    && size > 0 && size2 > 0 && call.broken == {} && call2.broken == {}
    && call2.mode.CountOnly? && call2.observableType == call.observableType
  }

  lemma AllPresent(t: Table, call: Call, entries: seq<Entry>, size: nat)
    requires size > 0
    ensures forall e :: e in entries ==> Present(Import(t, call, entries, size, NO_COUNTS).0, call.observableType, e.observable)
  {
    forall e | e in entries
      ensures Present(Import(t, call, entries, size, NO_COUNTS).0, call.observableType, e.observable)
    {
      EveryObservableIsPresent(t, call, entries, size, NO_COUNTS, e);
    }
  }

  /** A second import never inserts, and when it counts no update it leaves the table as it is. */
  lemma SecondImportOnlyUpdates(t: Table, call: Call, entries: seq<Entry>, size: nat, call2: Call, size2: nat)
    requires Repeatable(call, size, call2, size2)
    ensures
      var t1 := Import(t, call, entries, size, NO_COUNTS).0;
      var (t2, c2) := Import(t1, call2, entries, size2, NO_COUNTS);
      c2.inserted == 0 && (c2.updated == 0 ==> t2 == t1)
  {
    var t1 := Import(t, call, entries, size, NO_COUNTS).0;
    AllPresent(t, call, entries, size);
    PresentImport(t1, call2, entries, size2);
    ImportTouchesOnlyItsSources(t1, call2, entries, size2, NO_COUNTS, entries);
    var (t2, c2) := Import(t1, call2, entries, size2, NO_COUNTS);
    if c2.updated == 0 {
      forall i | 0 <= i < |t1|
        ensures t2[i] == t1[i]
      {
        assert SameIdentity(t1[i], t2[i]) && Holds(t2[i]) == Holds(t1[i]);
      }
    }
  }

  lemma QuietWhenSettled(t: Table, call: Call, entries: seq<Entry>, size: nat, call2: Call, size2: nat)
    requires Repeatable(call, size, call2, size2) && WillSettle(t, call, entries, size)
    ensures QuietRepeat(t, call, entries, size, call2, size2)
  {
    var t1 := Import(t, call, entries, size, NO_COUNTS).0;
    forall e | e in entries
      ensures Settled(t1, call2, e)
    {
      ImportSettles(t, call, entries, size, e);
      assert forall i: nat :: Candidate(t1, call2, e, i) <==> Candidate(t1, call, e, i);
    }
    SettledStaysQuiet(t1, call2, entries, |entries|);
    AllPresent(t, call, entries, size);
    PresentImport(t1, call2, entries, size2);
  }

  lemma LoudWhenNot(t: Table, call: Call, entries: seq<Entry>, size: nat, call2: Call, size2: nat)
    returns (p: nat -> nat, q: nat -> nat)
    requires Repeatable(call, size, call2, size2) && !WillSettle(t, call, entries, size)
    ensures !QuietRepeat(t, call.(pick := p), entries, size, call2.(pick := q), size2)
  {
    var e;
    p, e := ImportMayNotSettle(t, call, entries, size);
    var t1 := Import(t, call.(pick := p), entries, size, NO_COUNTS).0;
    var i: nat :| Candidate(t1, call, e, i) && Holds(t1[i]) != PayloadOf(e);
    var k :| 0 <= k < |entries| && entries[k] == e;
    q := (_: nat) => i;
    AllPresent(t, call.(pick := p), entries, size);
    PresentImport(t1, call2.(pick := q), entries, size2);
    UnsettledRowIsUpdated(t1, call2.(pick := q), entries, k, i);
  }

  lemma ConditionIgnoresPick(t: Table, call: Call, entries: seq<Entry>, size: nat, p: nat -> nat)
    requires size > 0
    ensures WillSettle(t, call.(pick := p), entries, size) <==> WillSettle(t, call, entries, size)
  {
    FilledIgnoresPick(t, call, entries, size, p);
    assert forall e :: UpdateOf(call.(pick := p), e) == UpdateOf(call, e);
    var filled := Filled(t, call, entries, size);
    assert Agree(entries, call.(pick := p), filled) <==> Agree(entries, call, filled) by {
      assert forall e :: HasRow(filled, call.(pick := p), e) <==> HasRow(filled, call, e);
    }
    forall e
      ensures Sole(t, call.(pick := p), e) <==> Sole(t, call, e)
      ensures Settled(t, call.(pick := p), e) <==> Settled(t, call, e)
    {
      assert forall i: nat :: Candidate(t, call.(pick := p), e, i) <==> Candidate(t, call, e, i);
    }
  }

  lemma {:induction false} FilledIgnoresPick(t: Table, call: Call, entries: seq<Entry>, size: nat, p: nat -> nat)
    requires size > 0
    ensures AllFresh(t, call.(pick := p), entries, size) == AllFresh(t, call, entries, size)
    decreases |entries|
  {
    if entries != [] {
      var n := ChunkSize(entries, size);
      FreshIgnoresPick(t, call, entries[..n], p);
      FilledIgnoresPick(t + FreshRows(t, call, entries[..n]), call, entries[n..], size, p);
    }
  }

  lemma {:induction false} FreshIgnoresPick(t: Table, call: Call, chunk: seq<Entry>, p: nat -> nat)
    ensures FreshRows(t, call.(pick := p), chunk) == FreshRows(t, call, chunk)
  {
    if chunk != [] {
      FreshIgnoresPick(t, call, chunk[..|chunk| - 1], p);
    }
  }

  /**
   A second import of the same entries is sure to update nothing, whichever of tied rows the database
   picks in either import, exactly when entries that will meet in a row agree on url, category and note
   and stored rows of a key that tie already hold what its entry says. Both can be told before the
   first import. Chunk sizes and import times may differ.
   */
  lemma SecondImportIsQuiet(t: Table, call: Call, entries: seq<Entry>, size: nat, call2: Call, size2: nat)
    requires Repeatable(call, size, call2, size2)
    ensures AlwaysQuiet(t, call, entries, size, call2, size2) <==> WillSettle(t, call, entries, size)
  {
    if WillSettle(t, call, entries, size) {
      forall p: nat -> nat, q: nat -> nat
        ensures QuietRepeat(t, call.(pick := p), entries, size, call2.(pick := q), size2)
      {
        ConditionIgnoresPick(t, call, entries, size, p);
        QuietWhenSettled(t, call.(pick := p), entries, size, call2.(pick := q), size2);
      }
    } else {
      var p, q := LoudWhenNot(t, call, entries, size, call2, size2);
    }
  }

  /** Entries with distinct observables always agree, so only stored rows that tie can spoil the repeat. */
  lemma DistinctObservablesAreQuietIff(t: Table, call: Call, entries: seq<Entry>, size: nat, call2: Call, size2: nat)
    requires Repeatable(call, size, call2, size2)
    requires forall i, j :: 0 <= i < j < |entries| ==> entries[i].observable != entries[j].observable
    ensures AlwaysQuiet(t, call, entries, size, call2, size2) <==>
              forall e :: e in entries ==> Sole(t, call, e) || Settled(t, call, e)
  {
    forall e, f | e in entries && f in entries && SameKey(e, f)
      ensures e == f
    {
      var i :| 0 <= i < |entries| && entries[i] == e;
      var j :| 0 <= j < |entries| && entries[j] == f;
      assert i == j;
    }
    SecondImportIsQuiet(t, call, entries, size, call2, size2);
  }

  function NoteEntry(note: string): Entry {
    Entry("192.0.2.1", "feed", None, None, Some(note))
  }

  /** One import of two entries for a new observable leaves two rows that tie. */
  lemma OneImportLeavesATie(call: Call)
    ensures Import([], call, [NoteEntry("a"), NoteEntry("b")], 150, NO_COUNTS).0
         == [NewRow(call, NoteEntry("a")), NewRow(call, NoteEntry("b"))]
  {
    var a, b := NoteEntry("a"), NoteEntry("b");
    assert [a, b][..1] == [a] && [a][..0] == [] && [a, b][..2] == [a, b] && [a, b][2..] == [];
    assert FreshRows([], call, []) == [] && FreshRows([], call, [a]) == [NewRow(call, a)];
    assert FreshRows([], call, [a, b]) == [NewRow(call, a), NewRow(call, b)];
    ChunkPartition([], call, [a, b]);
  }

  /** A later single entry that differs from both may be updated again when it is repeated. */
  lemma TiedRowsSpoilTheRepeat(call: Call)
    requires call.mode.CountOnly? && call.broken == {}
    ensures
      var t := Import([], call, [NoteEntry("a"), NoteEntry("b")], 150, NO_COUNTS).0;
      !AlwaysQuiet(t, call, [NoteEntry("c")], 150, call, 150)
  {
    OneImportLeavesATie(call);
    var t, e := [NewRow(call, NoteEntry("a")), NewRow(call, NoteEntry("b"))], NoteEntry("c");
    assert Candidate(t, call, e, 0) && Candidate(t, call, e, 1);
    assert Holds(t[0]) != PayloadOf(e) && e in [e];
    DistinctObservablesAreQuietIff(t, call, [e], 150, call, 150);
  }

  /**
   Two differing entries of one stored key make every import update, whatever the table holds and however
   often it is repeated: the key still has its one row afterwards.
   */
  lemma ConflictingEntriesNeverSettle(t: Table, call: Call, entries: seq<Entry>, size: nat, e: Entry, f: Entry)
    requires size > 0 && call.mode.CountOnly? && call.broken == {}
    requires e in entries && f in entries && SameKey(e, f) && PayloadOf(e) != PayloadOf(f)
    requires HasRow(t, call, e) && Sole(t, call, e)
    ensures
      var (t1, c1) := Import(t, call, entries, size, NO_COUNTS);
      c1.updated > 0 && HasRow(t1, call, e) && Sole(t1, call, e)
  {
    var i := HasCandidate(t, call, e);
    SharedRow(t, call, e, f, i);
    AimsAtSole(t, call, entries, size, e, i);
    AimsAtSole(t, call, entries, size, f, i);
    ConflictIsUpdated(Filled(t, call, entries, size), call, AllDuplicates(t, call, entries, size), e, f, i);
    ImportAsPredicted(t, call, entries, size);
    CountersTell(call.mode, Plus(NO_COUNTS, |AllFresh(t, call, entries, size)|),
                 Statuses(Filled(t, call, entries, size), call, AllDuplicates(t, call, entries, size)));
    SoleRowRemains(t, call, entries, size, e, i);
  }

  /** Of two updates with different payloads aimed at one row, one changes it. */
  lemma ConflictIsUpdated(t: Table, call: Call, dups: seq<Entry>, e: Entry, f: Entry, i: nat)
    requires e in dups && f in dups && PayloadOf(e) != PayloadOf(f)
    requires forall k :: 0 <= k < |dups| && (dups[k] == e || dups[k] == f) ==> Aim(t, call, dups, k) == Some(i)
    ensures Updated in Statuses(t, call, dups)
  {
    var k :| 0 <= k < |dups| && dups[k] == e;
    var m :| 0 <= m < |dups| && dups[m] == f;
    QuietRowsHold(t, call, dups);
    if Updated !in Statuses(t, call, dups) {
      QuietUpdateRepeats(t, call, dups, k, i);
      QuietUpdateRepeats(t, call, dups, m, i);
    }
  }

  lemma SoleRowRemains(t: Table, call: Call, entries: seq<Entry>, size: nat, e: Entry, i: nat)
    requires size > 0 && Candidate(t, call, e, i) && Sole(t, call, e)
    ensures
      var t1 := Import(t, call, entries, size, NO_COUNTS).0;
      HasRow(t1, call, e) && Sole(t1, call, e)
  {
    var filled := Filled(t, call, entries, size);
    var t1 := Import(t, call, entries, size, NO_COUNTS).0;
    ImportAsPredicted(t, call, entries, size);
    StoredCandidates(t, call, entries, size, e, i);
    assert Present(t, call.observableType, e.observable);
    forall j: nat | Candidate(t1, call, e, j)
      ensures j == i
    {
      SameCandidates(filled, t1, call, e, j);
      StoredOrInserted(t, call, entries, size, e, j);
    }
    SameCandidates(filled, t1, call, e, i);
  }

  lemma AimsAtSole(t: Table, call: Call, entries: seq<Entry>, size: nat, e: Entry, i: nat)
    requires size > 0 && call.broken == {} && e in entries && Candidate(t, call, e, i) && Sole(t, call, e)
    ensures e in AllDuplicates(t, call, entries, size)
    ensures
      var filled, dups := Filled(t, call, entries, size), AllDuplicates(t, call, entries, size);
      forall k :: 0 <= k < |dups| && dups[k] == e ==> Aim(filled, call, dups, k) == Some(i)
  {
    var filled, dups := Filled(t, call, entries, size), AllDuplicates(t, call, entries, size);
    FlatEntries(t, call, entries, size);
    assert Present(t, call.observableType, e.observable);
    StoredCandidates(t, call, entries, size, e, i);
    forall k | 0 <= k < |dups| && dups[k] == e
      ensures Aim(filled, call, dups, k) == Some(i)
    {
      var j := Aim(filled, call, dups, k);
      assert Candidate(filled, call, e, j.value);
      StoredOrInserted(t, call, entries, size, e, j.value);
    }
  }

  /** One stored row and two entries for it with different notes are such a case. */
  lemma ConflictingNotesExample(call: Call)
    requires call.mode.CountOnly? && call.broken == {}
    ensures
      var t := [Row("192.0.2.1", call.observableType, "feed", None, None, None, None, None, None, 0)];
      var entries := [Entry("192.0.2.1", "feed", None, None, Some("a")), Entry("192.0.2.1", "feed", None, None, Some("b"))];
      Import(Import(t, call, entries, 150, NO_COUNTS).0, call, entries, 150, NO_COUNTS).1.updated > 0
  {
    var t := [Row("192.0.2.1", call.observableType, "feed", None, None, None, None, None, None, 0)];
    var e, f := Entry("192.0.2.1", "feed", None, None, Some("a")), Entry("192.0.2.1", "feed", None, None, Some("b"));
    assert Selects(UpdateOf(call, e), t[0]) && e in [e, f] && f in [e, f];
    ConflictingEntriesNeverSettle(t, call, [e, f], 150, e, f);
    ConflictingEntriesNeverSettle(Import(t, call, [e, f], 150, NO_COUNTS).0, call, [e, f], 150, e, f);
  }
}
