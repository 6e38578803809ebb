/** Merging imported observations into the IOC table: per-source updates and batched inserts. */
module ImportMerge {
  import opened Options

  /** `created` is created_at, the start of the transaction that inserted the row: rows of one import tie. */
  datatype Row = Row(
    observable: string, observableType: string, source: string, url: Option<string>, category: Option<string>,
    note: Option<string>, firstSeen: Option<int>, lastSeen: Option<int>, fingerprint: Option<string>, created: int)

  /** The rows in insertion order. */
  type Table = seq<Row>

  datatype Status = NotFound | Updated | Unchanged | FingerprintUnchanged | ObservationUpdated

  // ----- first and last seen -------------------------------------------------------------------

  /** The SQL merge of first_seen_at: NULL never wins, otherwise LEAST. */
  function NextFirst(stored: Option<int>, incoming: Option<int>): Option<int> {
    if incoming.None? then stored
    else if stored.None? then incoming
    else if incoming.value < stored.value then incoming
    else stored
  }

  /** The SQL merge of last_seen_at: GREATEST of the incoming and the stored value. */
  function NextLast(stored: Option<int>, incoming: Option<int>): Option<int> {
    if incoming.None? then stored
    else
      var s := Coalesce(stored, incoming).value;
      if s < incoming.value then incoming else Some(s)
  }

  /** r is the least value that occurs, or None when none does. */
  ghost predicate IsLeast(r: Option<int>, values: seq<Option<int>>) {
    && (r.None? ==> forall k :: 0 <= k < |values| ==> values[k].None?)
    && (r.Some? ==> r in values && forall k :: 0 <= k < |values| && values[k].Some? ==> r.value <= values[k].value)
  }

  ghost predicate IsGreatest(r: Option<int>, values: seq<Option<int>>) {
    && (r.None? ==> forall k :: 0 <= k < |values| ==> values[k].None?)
    && (r.Some? ==> r in values && forall k :: 0 <= k < |values| && values[k].Some? ==> values[k].value <= r.value)
  }

  /** The JavaScript merges of the URLhaus path: they ignore a missing time, and agree with the SQL ones. */
  function MergeUrlhausFirstSeen(stored: Option<int>, incoming: Option<int>): (r: Option<int>)
    ensures IsLeast(r, [stored, incoming]) && r == NextFirst(stored, incoming)
  {
    if incoming.None? then stored
    else if stored.None? then incoming
    else if incoming.value < stored.value then incoming else stored
  }

  function MergeUrlhausLastSeen(stored: Option<int>, incoming: Option<int>): (r: Option<int>)
    ensures IsGreatest(r, [stored, incoming]) && r == NextLast(stored, incoming)
  {
    if incoming.None? then stored
    else if stored.None? then incoming
    else if incoming.value > stored.value then incoming else stored
  }

  // ----- update by source ----------------------------------------------------------------------

  datatype Update = Update(
    observable: string, observableType: string, source: string, url: Option<string>, note: Option<string>,
    category: Option<string>, firstSeen: Option<int>, lastSeen: Option<int>, matchUrl: bool)

  /** COALESCE(source_url, ''). */
  function UrlKey(url: Option<string>): string {
    if url.Some? then url.value else ""
  }

  predicate Selects(u: Update, r: Row) {
    && r.observable == u.observable && r.observableType == u.observableType && r.source == u.source
    && (u.matchUrl ==> UrlKey(r.url) == UrlKey(u.url))
  }

  /** Row i is one ORDER BY created_at ASC LIMIT 1 may return; there is no tie-break. */
  ghost predicate IsEarliest(t: Table, u: Update, i: nat) {
    i < |t| && Selects(u, t[i]) && forall k :: 0 <= k < |t| && Selects(u, t[k]) ==> t[i].created <= t[k].created
  }

  /** The first of the earliest rows; None when the update selects no row. */
  function FirstEarliest(t: Table, u: Update): (r: Option<nat>)
    ensures r.Some? ==> IsEarliest(t, u, r.value)
    ensures r.Some? ==> forall k :: 0 <= k < r.value && Selects(u, t[k]) ==> t[r.value].created < t[k].created
    ensures r.None? <==> forall k :: 0 <= k < |t| ==> !Selects(u, t[k])
  {
    if t == [] then None
    else
      var n := |t| - 1;
      var front := FirstEarliest(t[..n], u);
      assert forall k :: 0 <= k < n ==> t[..n][k] == t[k];
      if Selects(u, t[n]) && (front.None? || t[n].created < t[front.value].created) then Some(n) else front
  }

  /** The same as a test the program can make. */
  predicate Earliest(t: Table, u: Update, i: nat)
    ensures Earliest(t, u, i) <==> IsEarliest(t, u, i)
  {
    i < |t| && Selects(u, t[i]) && t[i].created <= t[FirstEarliest(t, u).value].created
  }

  /** The row the database picks. `pick` stands for its free choice among tied rows; every choice can be expressed. */
  function Chosen(t: Table, u: Update, pick: nat): (r: Option<nat>)
    ensures r.Some? ==> IsEarliest(t, u, r.value)
    ensures r.None? <==> forall k :: 0 <= k < |t| ==> !Selects(u, t[k])
    ensures IsEarliest(t, u, pick) ==> r == Some(pick)
  {
    if Earliest(t, u, pick) then Some(pick) else FirstEarliest(t, u)
  }

  function Merged(u: Update, r: Row): Row {
    r.(url := if u.matchUrl then u.url else r.url, category := u.category, note := u.note,
       firstSeen := NextFirst(r.firstSeen, u.firstSeen), lastSeen := NextLast(r.lastSeen, u.lastSeen))
  }

  /** The IS DISTINCT FROM guard of the UPDATE. */
  predicate Differs(u: Update, r: Row) {
    || (u.matchUrl && r.url != u.url)
    || r.category != u.category
    || r.note != u.note
    || r.firstSeen != NextFirst(r.firstSeen, u.firstSeen)
    || r.lastSeen != NextLast(r.lastSeen, u.lastSeen)
  }

  function UpdateExisting(t: Table, u: Update, pick: nat): (Table, Status) {
    var i := Chosen(t, u, pick);
    if i.None? then (t, NotFound)
    else if Differs(u, t[i.value]) then (t[i.value := Merged(u, t[i.value])], Updated)
    else (t, Unchanged)
  }

  /** Observations in order; update k meets the database's choice pick(k). */
  function UpdateAll(t: Table, us: seq<Update>, pick: nat -> nat): Table {
    if us == [] then t
    else UpdateExisting(UpdateAll(t, us[..|us| - 1], pick), us[|us| - 1], pick(|us| - 1)).0
  }

  // ----- URLhaus -------------------------------------------------------------------------------

  datatype UrlhausEntry = UrlhausEntry(
    note: Option<string>, category: Option<string>, dateAdded: Option<int>, lastOnline: Option<int>,
    fingerprint: Option<string>)

  predicate HasFingerprint(x: UrlhausEntry) {
    x.fingerprint.Some? && x.fingerprint.value != ""
  }

  /** `strip` drops the volatile parts of a note; notes are compared after it. */
  function UrlhausUpdate(strip: Option<string> -> string, r: Row, x: UrlhausEntry): (Row, Status) {
    if HasFingerprint(x) && r.fingerprint == x.fingerprint then (r, FingerprintUnchanged)
    else
      var first := MergeUrlhausFirstSeen(r.firstSeen, x.dateAdded);
      var last := MergeUrlhausLastSeen(r.lastSeen, x.lastOnline);
      var semanticChanged := UrlKey(r.category) != UrlKey(x.category) || strip(r.note) != strip(x.note);
      var observationChanged := r.firstSeen != first || r.lastSeen != last;
      if !semanticChanged && !observationChanged then
        (if HasFingerprint(x) then r.(fingerprint := x.fingerprint) else r, Unchanged)
      else
        var seen := r.(note := x.note, firstSeen := first, lastSeen := last, fingerprint := x.fingerprint);
        if semanticChanged then
          var next := seen.(category := x.category);
          (next, if next != r then Updated else Unchanged)
        else (seen, if seen != r then ObservationUpdated else Unchanged)
  }

  /** The row selection of the URLhaus update: the source URL plays no part. */
  function UrlhausSelection(observable: string, observableType: string, source: string): Update {
    Update(observable, observableType, source, None, None, None, None, None, false)
  }

  function UrlhausExisting(
    strip: Option<string> -> string, t: Table, key: Update, pick: nat, x: UrlhausEntry): (Table, Status)
  {
    var i := Chosen(t, key, pick);
    if i.None? then (t, NotFound)
    else
      var (r, status) := UrlhausUpdate(strip, t[i.value], x);
      (t[i.value := r], status)
  }

  // ----- batch insert --------------------------------------------------------------------------

  datatype Entry = Entry(observable: string, source: string, url: Option<string>, category: Option<string>, note: Option<string>)

  datatype Counts = Counts(inserted: nat, updated: nat, duplicate: nat, skipped: nat)

  datatype Mode = Full | CountOnly

  /**
   The observable type, import time, transaction start and mode of one call, the observables whose
   update query throws, and the database's choice among tied rows in each update of the call.
   */
  datatype Call = Call(
    observableType: string, now: int, created: int, mode: Mode, broken: set<string>, pick: nat -> nat)

  predicate Present(t: Table, observableType: string, observable: string) {
    exists i :: 0 <= i < |t| && t[i].observable == observable && t[i].observableType == observableType
  }

  function NewRow(call: Call, e: Entry): Row {
    Row(e.observable, call.observableType, e.source, e.url, e.category, e.note, Some(call.now), Some(call.now), None, call.created)
  }

  function UpdateOf(call: Call, e: Entry): Update {
    Update(e.observable, call.observableType, e.source, e.url, e.note, e.category, None, None, true)
  }

  /** INSERT ... WHERE NOT EXISTS: every entry is tested against the table before the statement. */
  function FreshRows(t: Table, call: Call, chunk: seq<Entry>): seq<Row> {
    if chunk == [] then []
    else
      var rest := FreshRows(t, call, chunk[..|chunk| - 1]);
      var e := chunk[|chunk| - 1];
      if Present(t, call.observableType, e.observable) then rest else rest + [NewRow(call, e)]
  }

  function Duplicates(t: Table, call: Call, chunk: seq<Entry>): seq<Entry> {
    if chunk == [] then []
    else
      var rest := Duplicates(t, call, chunk[..|chunk| - 1]);
      var e := chunk[|chunk| - 1];
      if Present(t, call.observableType, e.observable) then rest + [e] else rest
  }

  /** The update of one duplicate, with `done` updates before it in this call. */
  function UpdateDuplicate(t: Table, call: Call, e: Entry, done: nat): (Table, Status) {
    if e.observable in call.broken then (t, NotFound) else UpdateExisting(t, UpdateOf(call, e), call.pick(done))
  }

  /** How many updates of duplicates a call has made. */
  function Done(mode: Mode, c: Counts): nat {
    if mode.CountOnly? then c.updated + c.duplicate + c.skipped else c.duplicate
  }

  function Count(mode: Mode, c: Counts, status: Status): Counts {
    match mode
    case CountOnly =>
      if status.Unchanged? then c.(skipped := c.skipped + 1)
      else if status.Updated? then c.(updated := c.updated + 1)
      else c.(duplicate := c.duplicate + 1)
    case Full =>
      if status.Unchanged? then c.(duplicate := c.duplicate + 1, skipped := c.skipped + 1)
      else c.(duplicate := c.duplicate + 1)
  }

  function UpdateDuplicates(t: Table, call: Call, dups: seq<Entry>, c: Counts): (Table, Counts) {
    if dups == [] then (t, c)
    else
      var (t1, c1) := UpdateDuplicates(t, call, dups[..|dups| - 1], c);
      var (t2, status) := UpdateDuplicate(t1, call, dups[|dups| - 1], Done(call.mode, c1));
      (t2, Count(call.mode, c1, status))
  }

  function ImportChunk(t: Table, call: Call, chunk: seq<Entry>, c: Counts): (Table, Counts) {
    var added := FreshRows(t, call, chunk);
    UpdateDuplicates(t + added, call, Duplicates(t, call, chunk), c.(inserted := c.inserted + |added|))
  }

  /** The whole call: chunks of `size` entries, in order. */
  function Import(t: Table, call: Call, entries: seq<Entry>, size: nat, c: Counts): (Table, Counts)
    requires size > 0
    decreases |entries|
  {
    if entries == [] then (t, c)
    else
      var n := if |entries| <= size then |entries| else size;
      var (t1, c1) := ImportChunk(t, call, entries[..n], c);
      Import(t1, call, entries[n..], size, c1)
  }

  const NO_COUNTS := Counts(0, 0, 0, 0)
}
