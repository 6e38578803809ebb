/** What the import keeps, conserves and settles, for every table and every list of entries. */
module ImportMergeProofs {
  import opened Options
  import opened ImportMerge

  // ----- first and last seen -------------------------------------------------------------------

  function FirstSeens(us: seq<Update>): seq<Option<int>> {
    seq(|us|, k requires 0 <= k < |us| => us[k].firstSeen)
  }

  function LastSeens(us: seq<Update>): seq<Option<int>> {
    seq(|us|, k requires 0 <= k < |us| => us[k].lastSeen)
  }

  /** What no update ever changes, and what decides which row an update selects. */
  predicate SameIdentity(a: Row, b: Row) {
    && a.observable == b.observable && a.observableType == b.observableType && a.source == b.source
    && UrlKey(a.url) == UrlKey(b.url) && a.fingerprint == b.fingerprint && a.created == b.created
  }

  /** The table grew at its end and every old row kept its identity. */
  ghost predicate Grows(t: Table, t': Table) {
    |t| <= |t'| && forall i :: 0 <= i < |t| ==> SameIdentity(t[i], t'[i])
  }

  /** What an updated row says: the observation's category and note, its URL where that is matched, and the wider bounds. */
  lemma MergedSays(u: Update, r: Row)
    ensures
      var r1 := Merged(u, r);
      && r1.category == u.category && r1.note == u.note && r1.url == (if u.matchUrl then u.url else r.url)
      && IsLeast(r1.firstSeen, [r.firstSeen, u.firstSeen]) && IsGreatest(r1.lastSeen, [r.lastSeen, u.lastSeen])
      && (r1.observable, r1.observableType, r1.source, r1.fingerprint, r1.created)
         == (r.observable, r.observableType, r.source, r.fingerprint, r.created)
  {
  }

  /** The update reports "updated" exactly when the table changed, and changes only the row it picked. */
  lemma UpdatedMeansChanged(t: Table, u: Update, pick: nat)
    ensures
      var (t', status) := UpdateExisting(t, u, pick);
      var i := Chosen(t, u, pick);
      && (status.Updated? <==> t' != t)
      && (status.NotFound? <==> forall k :: 0 <= k < |t| ==> !Selects(u, t[k]))
      && |t'| == |t| && Grows(t, t')
      && (forall k :: 0 <= k < |t| && Some(k) != i ==> t'[k] == t[k])
      && (i.Some? ==> t'[i.value] == Merged(u, t[i.value]))
  {
    var i := Chosen(t, u, pick);
    if i.Some? {
      assert Differs(u, t[i.value]) <==> Merged(u, t[i.value]) != t[i.value];
      assert t[i.value := Merged(u, t[i.value])][i.value] == Merged(u, t[i.value]);
    }
  }

  lemma EarliestStays(t: Table, t': Table, u: Update, i: nat)
    requires Grows(t, t') && forall k :: |t| <= k < |t'| ==> !Selects(u, t'[k])
    ensures IsEarliest(t, u, i) <==> IsEarliest(t', u, i)
  {
    assert forall k :: 0 <= k < |t| ==> SameIdentity(t[k], t'[k]) && (Selects(u, t[k]) <==> Selects(u, t'[k]));
  }

  /** Which row is picked depends on identities only, so updates and rows of other keys do not matter. */
  lemma ChosenStays(t: Table, t': Table, u: Update, pick: nat)
    requires Grows(t, t') && forall k :: |t| <= k < |t'| ==> !Selects(u, t'[k])
    ensures Chosen(t', u, pick) == Chosen(t, u, pick)
  {
    forall i: nat
      ensures IsEarliest(t, u, i) <==> IsEarliest(t', u, i)
    {
      EarliestStays(t, t', u, i);
    }
    assert forall k :: 0 <= k < |t| ==> SameIdentity(t[k], t'[k]) && (Selects(u, t[k]) <==> Selects(u, t'[k]));
  }

  /** The observations that the database took to row i. */
  function Reaching(t: Table, us: seq<Update>, pick: nat -> nat, i: nat): seq<Update> {
    if us == [] then []
    else
      var n := |us| - 1;
      var front := Reaching(t, us[..n], pick, i);
      if Chosen(t, us[n], pick(n)) == Some(i) then front + [us[n]] else front
  }

  lemma {:induction false} ObservationsKeepIdentities(t: Table, us: seq<Update>, pick: nat -> nat)
    ensures |UpdateAll(t, us, pick)| == |t| && Grows(t, UpdateAll(t, us, pick))
  {
    if us != [] {
      var n := |us| - 1;
      var t1 := UpdateAll(t, us[..n], pick);
      ObservationsKeepIdentities(t, us[..n], pick);
      UpdatedMeansChanged(t1, us[n], pick(n));
      GrowsTransitive(t, t1, UpdateAll(t, us, pick));
    }
  }

  lemma GrowsTransitive(a: Table, b: Table, c: Table)
    requires Grows(a, b) && Grows(b, c)
    ensures Grows(a, c)
  {
    forall i | 0 <= i < |a|
      ensures SameIdentity(a[i], c[i])
    {
      assert SameIdentity(a[i], b[i]) && SameIdentity(b[i], c[i]);
    }
  }

  /**
   Over any sequence of observations, every row's first_seen ends as the least and its last_seen as the
   greatest of the initial value and all non-null values of the observations that reached the row.
   */
  lemma {:induction false} SeenBoundsOverObservations(t: Table, us: seq<Update>, pick: nat -> nat, i: nat)
    requires i < |t|
    ensures |UpdateAll(t, us, pick)| == |t|
    ensures IsLeast(UpdateAll(t, us, pick)[i].firstSeen, [t[i].firstSeen] + FirstSeens(Reaching(t, us, pick, i)))
    ensures IsGreatest(UpdateAll(t, us, pick)[i].lastSeen, [t[i].lastSeen] + LastSeens(Reaching(t, us, pick, i)))
  {
    if us != [] {
      var n := |us| - 1;
      var t1, reached := UpdateAll(t, us[..n], pick), Reaching(t, us, pick, i);
      SeenBoundsOverObservations(t, us[..n], pick, i);
      ObservationsKeepIdentities(t, us[..n], pick);
      ChosenStays(t, t1, us[n], pick(n));
      UpdatedMeansChanged(t1, us[n], pick(n));
      if Chosen(t, us[n], pick(n)) == Some(i) {
        assert reached[..|reached| - 1] == Reaching(t, us[..n], pick, i);
        LeastOfOneMore(t[i].firstSeen, reached, t1[i].firstSeen);
        GreatestOfOneMore(t[i].lastSeen, reached, t1[i].lastSeen);
      }
    }
  }

  lemma LeastOfOneMore(x: Option<int>, us: seq<Update>, r: Option<int>)
    requires us != [] && IsLeast(r, [x] + FirstSeens(us[..|us| - 1]))
    ensures IsLeast(NextFirst(r, us[|us| - 1].firstSeen), [x] + FirstSeens(us))
  {
    var before := [x] + FirstSeens(us[..|us| - 1]);
    LeastExtends(r, before, us[|us| - 1].firstSeen);
    assert [x] + FirstSeens(us) == before + [us[|us| - 1].firstSeen];
  }

  lemma GreatestOfOneMore(x: Option<int>, us: seq<Update>, r: Option<int>)
    requires us != [] && IsGreatest(r, [x] + LastSeens(us[..|us| - 1]))
    ensures IsGreatest(NextLast(r, us[|us| - 1].lastSeen), [x] + LastSeens(us))
  {
    var before := [x] + LastSeens(us[..|us| - 1]);
    GreatestExtends(r, before, us[|us| - 1].lastSeen);
    assert [x] + LastSeens(us) == before + [us[|us| - 1].lastSeen];
  }

  lemma LeastExtends(r: Option<int>, values: seq<Option<int>>, x: Option<int>)
    requires IsLeast(r, values) && values != []
    ensures IsLeast(NextFirst(r, x), values + [x])
  {
    assert (values + [x])[|values|] == x;
    if r.Some? {
      var k :| 0 <= k < |values| && values[k] == r;
      assert (values + [x])[k] == r;
    }
  }

  lemma GreatestExtends(r: Option<int>, values: seq<Option<int>>, x: Option<int>)
    requires IsGreatest(r, values) && values != []
    ensures IsGreatest(NextLast(r, x), values + [x])
  {
    assert (values + [x])[|values|] == x;
    if r.Some? {
      var k :| 0 <= k < |values| && values[k] == r;
      assert (values + [x])[k] == r;
    }
  }

  /** The order of the observations that reach a row does not matter. */
  lemma SeenBoundsIgnoreOrder(t: Table, us: seq<Update>, pick: nat -> nat, vs: seq<Update>, pick2: nat -> nat, i: nat)
    requires i < |t| && multiset(Reaching(t, us, pick, i)) == multiset(Reaching(t, vs, pick2, i))
    ensures |UpdateAll(t, us, pick)| == |UpdateAll(t, vs, pick2)| == |t|
    ensures UpdateAll(t, us, pick)[i].firstSeen == UpdateAll(t, vs, pick2)[i].firstSeen
    ensures UpdateAll(t, us, pick)[i].lastSeen == UpdateAll(t, vs, pick2)[i].lastSeen
  {
    var a, b := Reaching(t, us, pick, i), Reaching(t, vs, pick2, i);
    var r, q := UpdateAll(t, us, pick), UpdateAll(t, vs, pick2);
    SameMembers(a, b);
    SeenBoundsOverObservations(t, us, pick, i);
    SeenBoundsOverObservations(t, vs, pick2, i);
    SameValues(t[i].firstSeen, FirstSeens(a), FirstSeens(b), a, b);
    SameValues(t[i].lastSeen, LastSeens(a), LastSeens(b), a, b);
    LeastIsUnique(r[i].firstSeen, q[i].firstSeen, [t[i].firstSeen] + FirstSeens(a), [t[i].firstSeen] + FirstSeens(b));
    GreatestIsUnique(r[i].lastSeen, q[i].lastSeen, [t[i].lastSeen] + LastSeens(a), [t[i].lastSeen] + LastSeens(b));
  }

  lemma SameMembers(us: seq<Update>, vs: seq<Update>)
    requires multiset(us) == multiset(vs)
    ensures forall v :: v in vs <==> v in us
  {
    assert forall v :: v in vs <==> v in multiset(vs);
    assert forall v :: v in us <==> v in multiset(us);
  }

  lemma LeastIsUnique(r: Option<int>, q: Option<int>, a: seq<Option<int>>, b: seq<Option<int>>)
    requires IsLeast(r, a) && IsLeast(q, b) && forall y :: y in a <==> y in b
    ensures r == q
  {
    assert r.Some? ==> r in b;
    assert q.Some? ==> q in a;
  }

  lemma GreatestIsUnique(r: Option<int>, q: Option<int>, a: seq<Option<int>>, b: seq<Option<int>>)
    requires IsGreatest(r, a) && IsGreatest(q, b) && forall y :: y in a <==> y in b
    ensures r == q
  {
    assert r.Some? ==> r in b;
    assert q.Some? ==> q in a;
  }

  lemma SameValues(x: Option<int>, a: seq<Option<int>>, b: seq<Option<int>>, us: seq<Update>, vs: seq<Update>)
    requires forall v :: v in vs <==> v in us
    requires (a == FirstSeens(us) && b == FirstSeens(vs)) || (a == LastSeens(us) && b == LastSeens(vs))
    ensures forall y :: y in [x] + a <==> y in [x] + b
  {
    ValuesCovered(a, b, us, vs);
    ValuesCovered(b, a, vs, us);
  }

  lemma ValuesCovered(a: seq<Option<int>>, b: seq<Option<int>>, us: seq<Update>, vs: seq<Update>)
    requires forall v :: v in us ==> v in vs
    requires (a == FirstSeens(us) && b == FirstSeens(vs)) || (a == LastSeens(us) && b == LastSeens(vs))
    ensures forall y :: y in a ==> y in b
  {
    forall k | 0 <= k < |a|
      ensures a[k] in b
    {
      assert us[k] in vs;
      var m :| 0 <= m < |vs| && vs[m] == us[k];
      assert b[m] == a[k];
    }
  }

  /** The entry says something new about the row: another category, or another note once its volatile parts are dropped. */
  predicate SaysNew(strip: Option<string> -> string, r: Row, x: UrlhausEntry) {
    UrlKey(r.category) != UrlKey(x.category) || strip(r.note) != strip(x.note)
  }

  /** It was seen earlier or later than the row knows. */
  predicate WidensBounds(r: Row, x: UrlhausEntry) {
    || (x.dateAdded.Some? && (r.firstSeen.None? || x.dateAdded.value < r.firstSeen.value))
    || (x.lastOnline.Some? && (r.lastSeen.None? || x.lastOnline.value > r.lastSeen.value))
  }

  /** The row has seen this very entry. */
  predicate KnowsEntry(r: Row, x: UrlhausEntry) {
    x.fingerprint.Some? && x.fingerprint.value != "" && r.fingerprint == x.fingerprint
  }

  /**
   What a URLhaus observation leaves. A row that knows the entry stays as it is. Any other takes over
   category, note and fingerprint in what they mean, and the wider of the bounds; it keeps its identity.
   */
  lemma UrlhausOutcome(strip: Option<string> -> string, r: Row, x: UrlhausEntry)
    ensures
      var (r1, status) := UrlhausUpdate(strip, r, x);
      && (r1.observable, r1.observableType, r1.source, r1.url, r1.created) == (r.observable, r.observableType, r.source, r.url, r.created)
      && (KnowsEntry(r, x) ==> r1 == r)
      && (!KnowsEntry(r, x) ==>
            && !SaysNew(strip, r1, x)
            && IsLeast(r1.firstSeen, [r.firstSeen, x.dateAdded]) && IsGreatest(r1.lastSeen, [r.lastSeen, x.lastOnline])
            && (x.fingerprint.Some? && x.fingerprint.value != "" ==> r1.fingerprint == x.fingerprint))
  {
  }

  /** Each status has its one cause, and what was written is exactly what that cause calls for. */
  lemma UrlhausStatus(strip: Option<string> -> string, r: Row, x: UrlhausEntry)
    ensures
      var (r1, status) := UrlhausUpdate(strip, r, x);
      && (status == FingerprintUnchanged <==> KnowsEntry(r, x))
      && (status == Updated <==> !KnowsEntry(r, x) && SaysNew(strip, r, x))
      && (status == ObservationUpdated <==> !KnowsEntry(r, x) && !SaysNew(strip, r, x) && WidensBounds(r, x))
      && (status == Unchanged <==> !KnowsEntry(r, x) && !SaysNew(strip, r, x) && !WidensBounds(r, x))
      && (status == Updated ==> r1.category == x.category && r1.note == x.note && r1.fingerprint == x.fingerprint)
      && (status == ObservationUpdated ==> r1.category == r.category && r1.note == x.note && r1.fingerprint == x.fingerprint)
      && (status == Unchanged ==>
            r1 == r.(fingerprint := if x.fingerprint.Some? && x.fingerprint.value != "" then x.fingerprint else r.fingerprint))
  {
  }

  /** Processing the same URLhaus entry again never changes the row. */
  lemma UrlhausReprocessingIsNoOp(strip: Option<string> -> string, r: Row, x: UrlhausEntry)
    ensures
      var r1 := UrlhausUpdate(strip, r, x).0;
      UrlhausUpdate(strip, r1, x) == (r1, if HasFingerprint(x) then FingerprintUnchanged else Unchanged)
  {
    var r1 := UrlhausUpdate(strip, r, x).0;
    assert r1.firstSeen == NextFirst(r.firstSeen, x.dateAdded) || r1 == r;
    assert NextFirst(r1.firstSeen, x.dateAdded) == r1.firstSeen || HasFingerprint(x);
    assert NextLast(r1.lastSeen, x.lastOnline) == r1.lastSeen || HasFingerprint(x);
  }

  /**
   In the table, whichever of tied rows the database takes the repeat to: it changes nothing exactly when
   that is the row of the first time, or one the entry would have left alone in the first place.
   */
  lemma UrlhausRepeatIsNoOpIff(
    strip: Option<string> -> string, t: Table, key: Update, pick: nat, pick2: nat, x: UrlhausEntry)
    ensures
      var t1 := UrlhausExisting(strip, t, key, pick, x).0;
      var i := Chosen(t, key, pick2);
      UrlhausExisting(strip, t1, key, pick2, x).0 == t1 <==>
      i.None? || i == Chosen(t, key, pick) || UrlhausUpdate(strip, t[i.value], x).0 == t[i.value]
  {
    var t1 := UrlhausExisting(strip, t, key, pick, x).0;
    var i, j := Chosen(t, key, pick), Chosen(t, key, pick2);
    assert |t1| == |t| && forall k :: 0 <= k < |t| ==>
      t1[k].created == t[k].created && (Selects(key, t1[k]) <==> Selects(key, t[k]));
    SameChoice(t, t1, key, pick2);
    if i.Some? {
      UrlhausReprocessingIsNoOp(strip, t[i.value], x);
      var r := UrlhausUpdate(strip, t1[j.value], x).0;
      assert t1[j.value := r][j.value] == r && (r == t1[j.value] ==> t1[j.value := r] == t1);
    }
  }

  lemma SameChoice(t: Table, t': Table, u: Update, pick: nat)
    requires |t'| == |t|
    requires forall k :: 0 <= k < |t| ==> t'[k].created == t[k].created && (Selects(u, t'[k]) <==> Selects(u, t[k]))
    ensures Chosen(t', u, pick) == Chosen(t, u, pick)
  {
    forall i: nat
      ensures IsEarliest(t, u, i) <==> IsEarliest(t', u, i)
    {
    }
  }

  // ----- conservation --------------------------------------------------------------------------

  function Total(c: Counts): nat {
    c.inserted + c.updated + c.duplicate + c.skipped
  }

  /** How many entries a call of this mode accounts for. */
  function Accounted(mode: Mode, c: Counts): nat {
    match mode
    case CountOnly => Total(c)
    case Full => c.inserted + c.duplicate
  }

  lemma {:induction false} DuplicatesAccounted(t: Table, call: Call, dups: seq<Entry>, c: Counts)
    ensures Accounted(call.mode, UpdateDuplicates(t, call, dups, c).1) == Accounted(call.mode, c) + |dups|
    ensures UpdateDuplicates(t, call, dups, c).1.inserted == c.inserted
  {
    if dups != [] {
      DuplicatesAccounted(t, call, dups[..|dups| - 1], c);
    }
  }

  lemma {:induction false} ChunkPartition(t: Table, call: Call, chunk: seq<Entry>)
    ensures |FreshRows(t, call, chunk)| + |Duplicates(t, call, chunk)| == |chunk|
  {
    if chunk != [] {
      ChunkPartition(t, call, chunk[..|chunk| - 1]);
    }
  }

  /**
   For every chunk size, count-only imports satisfy inserted + updated + duplicate + skipped = number
   of entries; in full mode inserted + duplicate alone is that number.
   */
  lemma {:induction false} EveryEntryIsCountedOnce(t: Table, call: Call, entries: seq<Entry>, size: nat, c: Counts)
    requires size > 0
    ensures Accounted(call.mode, Import(t, call, entries, size, c).1) == Accounted(call.mode, c) + |entries|
    decreases |entries|
  {
    if entries != [] {
      var n := if |entries| <= size then |entries| else size;
      var added := FreshRows(t, call, entries[..n]);
      ChunkPartition(t, call, entries[..n]);
      DuplicatesAccounted(t + added, call, Duplicates(t, call, entries[..n]), c.(inserted := c.inserted + |added|));
      var (t1, c1) := ImportChunk(t, call, entries[..n], c);
      EveryEntryIsCountedOnce(t1, call, entries[n..], size, c1);
    }
  }

  // ----- what the import may touch -------------------------------------------------------------

  /** Some entry names this row's observable and source. */
  ghost predicate Addressed(all: seq<Entry>, call: Call, r: Row) {
    exists e :: e in all && e.observable == r.observable && e.source == r.source && r.observableType == call.observableType
  }

  /** Old rows keep identity and timestamps; rows no entry addresses stay as they were. */
  ghost predicate TouchesOnly(t: Table, t': Table, all: seq<Entry>, call: Call) {
    && Grows(t, t')
    && forall i :: 0 <= i < |t| ==>
         t'[i].firstSeen == t[i].firstSeen && t'[i].lastSeen == t[i].lastSeen
         && (t'[i] == t[i] || Addressed(all, call, t[i]))
  }

  lemma TouchesOnlyTransitive(a: Table, b: Table, c: Table, all: seq<Entry>, call: Call)
    requires TouchesOnly(a, b, all, call) && TouchesOnly(b, c, all, call)
    ensures TouchesOnly(a, c, all, call)
  {
    forall i | 0 <= i < |a|
      ensures SameIdentity(a[i], c[i])
      ensures c[i] == a[i] || Addressed(all, call, a[i])
    {
      assert SameIdentity(a[i], b[i]) && SameIdentity(b[i], c[i]);
    }
  }

  lemma DuplicateTouches(t: Table, call: Call, e: Entry, done: nat, all: seq<Entry>)
    requires e in all
    ensures TouchesOnly(t, UpdateDuplicate(t, call, e, done).0, all, call)
    ensures |UpdateDuplicate(t, call, e, done).0| == |t|
  {
    UpdatedMeansChanged(t, UpdateOf(call, e), call.pick(done));
    var i := Chosen(t, UpdateOf(call, e), call.pick(done));
    if i.Some? {
      assert Addressed(all, call, t[i.value]);
    }
  }

  lemma {:induction false} DuplicatesTouch(t: Table, call: Call, dups: seq<Entry>, c: Counts, all: seq<Entry>)
    requires forall e :: e in dups ==> e in all
    ensures TouchesOnly(t, UpdateDuplicates(t, call, dups, c).0, all, call)
    ensures |UpdateDuplicates(t, call, dups, c).0| == |t|
  {
    if dups != [] {
      var front, e := dups[..|dups| - 1], dups[|dups| - 1];
      DuplicatesTouch(t, call, front, c, all);
      var (t1, c1) := UpdateDuplicates(t, call, front, c);
      var done := Done(call.mode, c1);
      DuplicateTouches(t1, call, e, done, all);
      TouchesOnlyTransitive(t, t1, UpdateDuplicate(t1, call, e, done).0, all, call);
    }
  }

  lemma {:induction false} DuplicatesAreEntries(t: Table, call: Call, chunk: seq<Entry>)
    ensures forall e :: e in Duplicates(t, call, chunk) <==> e in chunk && Present(t, call.observableType, e.observable)
  {
    if chunk != [] {
      DuplicatesAreEntries(t, call, chunk[..|chunk| - 1]);
      assert chunk == chunk[..|chunk| - 1] + [chunk[|chunk| - 1]];
    }
  }

  /** What an inserted row says: the entry's words under the call's type, seen now, never fingerprinted. */
  lemma NewRowSays(call: Call, e: Entry)
    ensures
      var r := NewRow(call, e);
      && r.observable == e.observable && r.source == e.source && r.observableType == call.observableType
      && r.url == e.url && r.category == e.category && r.note == e.note
      && r.firstSeen == Some(call.now) && r.lastSeen == Some(call.now) && r.fingerprint == None && r.created == call.created
  {
  }

  /** The duplicates of a chunk are updated in the order of its entries. */
  lemma {:induction false} DuplicatesKeepOrder(t: Table, call: Call, chunk: seq<Entry>) returns (from: seq<nat>)
    ensures |from| == |Duplicates(t, call, chunk)| && (forall i, j :: 0 <= i < j < |from| ==> from[i] < from[j])
    ensures forall i :: 0 <= i < |from| ==> from[i] < |chunk| && Duplicates(t, call, chunk)[i] == chunk[from[i]]
  {
    if chunk == [] {
      return [];
    }
    from := DuplicatesKeepOrder(t, call, chunk[..|chunk| - 1]);
    if Present(t, call.observableType, chunk[|chunk| - 1].observable) {
      from := from + [|chunk| - 1];
    }
  }

  /** So are the inserted rows. */
  lemma {:induction false} FreshRowsKeepOrder(t: Table, call: Call, chunk: seq<Entry>) returns (from: seq<nat>)
    ensures |from| == |FreshRows(t, call, chunk)| && (forall i, j :: 0 <= i < j < |from| ==> from[i] < from[j])
    ensures forall i :: 0 <= i < |from| ==> from[i] < |chunk| && FreshRows(t, call, chunk)[i] == NewRow(call, chunk[from[i]])
  {
    if chunk == [] {
      return [];
    }
    from := FreshRowsKeepOrder(t, call, chunk[..|chunk| - 1]);
    if !Present(t, call.observableType, chunk[|chunk| - 1].observable) {
      from := from + [|chunk| - 1];
    }
  }

  /** Which rows an update may go to: those of its observable, type and source, and of its URL where that matters; NULL is ''. */
  lemma SelectionScope(u: Update, r: Row)
    ensures Selects(u, r) <==>
              && r.observable == u.observable && r.observableType == u.observableType && r.source == u.source
              && (u.matchUrl ==> r.url == u.url || (r.url in {None, Some("")} && u.url in {None, Some("")}))
  {
  }

  /** The inserted rows are exactly the new rows of the entries whose observable was absent. */
  lemma {:induction false} FreshRowsAreEntries(t: Table, call: Call, chunk: seq<Entry>)
    ensures forall r :: r in FreshRows(t, call, chunk) ==>
              exists e :: e in chunk && r == NewRow(call, e) && !Present(t, call.observableType, e.observable)
    ensures forall e :: e in chunk && !Present(t, call.observableType, e.observable) ==>
              NewRow(call, e) in FreshRows(t, call, chunk)
  {
    if chunk != [] {
      var front, e := chunk[..|chunk| - 1], chunk[|chunk| - 1];
      FreshRowsAreEntries(t, call, front);
      assert chunk == front + [e];
    }
  }

  lemma ChunkTouches(t: Table, call: Call, chunk: seq<Entry>, c: Counts, all: seq<Entry>)
    requires forall e :: e in chunk ==> e in all
    ensures TouchesOnly(t, ImportChunk(t, call, chunk, c).0, all, call)
  {
    var added := FreshRows(t, call, chunk);
    assert TouchesOnly(t, t + added, all, call);
    DuplicatesAreEntries(t, call, chunk);
    DuplicatesTouch(t + added, call, Duplicates(t, call, chunk), c.(inserted := c.inserted + |added|), all);
    TouchesOnlyTransitive(t, t + added, ImportChunk(t, call, chunk, c).0, all, call);
  }

  /** The import appends rows and updates only rows that share observable and source with some entry. */
  lemma {:induction false} ImportTouchesOnlyItsSources(
    t: Table, call: Call, entries: seq<Entry>, size: nat, c: Counts, all: seq<Entry>)
    requires size > 0 && forall e :: e in entries ==> e in all
    ensures TouchesOnly(t, Import(t, call, entries, size, c).0, all, call)
    decreases |entries|
  {
    if entries != [] {
      var n := if |entries| <= size then |entries| else size;
      ChunkTouches(t, call, entries[..n], c, all);
      var (t1, c1) := ImportChunk(t, call, entries[..n], c);
      ImportTouchesOnlyItsSources(t1, call, entries[n..], size, c1, all);
      TouchesOnlyTransitive(t, t1, Import(t1, call, entries[n..], size, c1).0, all, call);
    }
  }

  lemma PresentStays(t: Table, t': Table, observableType: string, observable: string)
    requires Grows(t, t') && Present(t, observableType, observable)
    ensures Present(t', observableType, observable)
  {
    var i :| 0 <= i < |t| && t[i].observable == observable && t[i].observableType == observableType;
    assert SameIdentity(t[i], t'[i]);
  }

  lemma ChunkPresent(t: Table, call: Call, chunk: seq<Entry>, c: Counts, e: Entry)
    requires e in chunk
    ensures Present(ImportChunk(t, call, chunk, c).0, call.observableType, e.observable)
  {
    ChunkTouches(t, call, chunk, c, chunk);
    if Present(t, call.observableType, e.observable) {
      PresentStays(t, ImportChunk(t, call, chunk, c).0, call.observableType, e.observable);
    } else {
      var added := FreshRows(t, call, chunk);
      FreshRowsAreEntries(t, call, chunk);
      var k :| 0 <= k < |added| && added[k] == NewRow(call, e);
      assert (t + added)[|t| + k] == NewRow(call, e);
      DuplicatesTouch(t + added, call, Duplicates(t, call, chunk), c.(inserted := c.inserted + |added|), Duplicates(t, call, chunk));
      PresentStays(t + added, ImportChunk(t, call, chunk, c).0, call.observableType, e.observable);
    }
  }

  /** After the import, every entry's observable is in the table. */
  lemma {:induction false} EveryObservableIsPresent(t: Table, call: Call, entries: seq<Entry>, size: nat, c: Counts, e: Entry)
    requires size > 0 && e in entries
    ensures Present(Import(t, call, entries, size, c).0, call.observableType, e.observable)
    decreases |entries|
  {
    var n := if |entries| <= size then |entries| else size;
    var (t1, c1) := ImportChunk(t, call, entries[..n], c);
    assert entries == entries[..n] + entries[n..];
    if e in entries[n..] {
      EveryObservableIsPresent(t1, call, entries[n..], size, c1, e);
    } else {
      ChunkPresent(t, call, entries[..n], c, e);
      ImportTouchesOnlyItsSources(t1, call, entries[n..], size, c1, entries[n..]);
      PresentStays(t1, Import(t1, call, entries[n..], size, c1).0, call.observableType, e.observable);
    }
  }
}
