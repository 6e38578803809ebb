/** The import as the code runs it: a table updated in place, chunk by chunk. */
module ImportTable {
  import opened Options
  import opened ImportMerge

  class IocTable {
    var rows: seq<Row>

    constructor ()
      ensures rows == []
    {
      rows := [];
    }

    /** SELECT ... ORDER BY created_at ASC LIMIT 1, with the database's choice among tied rows. */
    method FindEarliest(u: Update, pick: nat) returns (i: Option<nat>)
      ensures i == Chosen(rows, u, pick)
    {
      i := None;
      for k := 0 to |rows|
        invariant i == FirstEarliest(rows[..k], u)
      {
        assert rows[..k + 1][..k] == rows[..k];
        if Selects(u, rows[k]) && (i.None? || rows[k].created < rows[i.value].created) {
          i := Some(k);
        }
      }
      assert rows[..|rows|] == rows;
      if i.Some? && pick < |rows| && Selects(u, rows[pick]) && rows[pick].created == rows[i.value].created {
        i := Some(pick);
      }
    }

    /** updateExistingIocBySourceIfChanged. */
    method UpdateExistingBySourceIfChanged(u: Update, pick: nat) returns (status: Status)
      modifies this
      ensures (rows, status) == UpdateExisting(old(rows), u, pick)
    {
      var found := FindEarliest(u, pick);
      if found.None? {
        return NotFound;
      }
      var i := found.value;
      var r := rows[i];
      var nextFirst := NextFirst(r.firstSeen, u.firstSeen);
      var nextLast := NextLast(r.lastSeen, u.lastSeen);
      if (u.matchUrl && r.url != u.url) || r.category != u.category || r.note != u.note
         || r.firstSeen != nextFirst || r.lastSeen != nextLast
      {
        var url := if u.matchUrl then u.url else r.url;
        rows := rows[i := r.(url := url, category := u.category, note := u.note, firstSeen := nextFirst, lastSeen := nextLast)];
        return Updated;
      }
      return Unchanged;
    }

    /** updateUrlhausExistingIocBySource: the earliest row of the source, whatever its URL, takes the entry. */
    method UpdateUrlhaus(
      strip: Option<string> -> string, observable: string, observableType: string, source: string, pick: nat, x: UrlhausEntry)
      returns (status: Status)
      modifies this
      ensures (rows, status) == UrlhausExisting(strip, old(rows), UrlhausSelection(observable, observableType, source), pick, x)
    {
      var found := FindEarliest(UrlhausSelection(observable, observableType, source), pick);
      if found.None? {
        return NotFound;
      }
      var i := found.value;
      var r := rows[i];
      assert rows[i := r] == rows;
      if HasFingerprint(x) && r.fingerprint == x.fingerprint {
        return FingerprintUnchanged;
      }
      var first := MergeUrlhausFirstSeen(r.firstSeen, x.dateAdded);
      var last := MergeUrlhausLastSeen(r.lastSeen, x.lastOnline);
      var semanticChanged := UrlKey(r.category) != UrlKey(x.category) || strip(r.note) != strip(x.note);
      var observationChanged := r.firstSeen != first || r.lastSeen != last;
      if !semanticChanged && !observationChanged {
        if HasFingerprint(x) {
          rows := rows[i := r.(fingerprint := x.fingerprint)];
        }
        return Unchanged;
      }
      var next := r.(note := x.note, firstSeen := first, lastSeen := last, fingerprint := x.fingerprint);
      if semanticChanged {
        next := next.(category := x.category);
      }
      if next == r {
        return Unchanged;
      }
      rows := rows[i := next];
      return if semanticChanged then Updated else ObservationUpdated;
    }

    /** The INSERT of one chunk; returns how many rows it added and the observables they carry. */
    method InsertMissing(call: Call, chunk: seq<Entry>) returns (added: nat, insertedObs: set<string>)
      modifies this
      ensures rows == old(rows) + FreshRows(old(rows), call, chunk)
      ensures added == |FreshRows(old(rows), call, chunk)|
      ensures forall e :: e in chunk ==>
                (e.observable in insertedObs <==> !Present(old(rows), call.observableType, e.observable))
    {
      var before := rows;
      var values: seq<Row> := [];
      insertedObs := {};
      for k := 0 to |chunk|
        invariant rows == old(rows)
        invariant values == FreshRows(before, call, chunk[..k])
        invariant forall o :: o in insertedObs ==> !Present(before, call.observableType, o)
        invariant forall e :: e in chunk[..k] && !Present(before, call.observableType, e.observable) ==> e.observable in insertedObs
      {
        assert chunk[..k + 1][..k] == chunk[..k] && chunk[..k + 1] == chunk[..k] + [chunk[k]];
        if !Present(before, call.observableType, chunk[k].observable) {
          values := values + [NewRow(call, chunk[k])];
          insertedObs := insertedObs + {chunk[k].observable};
        }
      }
      assert chunk[..|chunk|] == chunk;
      rows := rows + values;
      added := |values|;
    }

    /** The updates of one chunk's duplicates, in order. */
    method UpdateDuplicateEntries(call: Call, dups: seq<Entry>, c: Counts) returns (out: Counts)
      modifies this
      ensures (rows, out) == UpdateDuplicates(old(rows), call, dups, c)
    {
      out := c;
      for k := 0 to |dups|
        invariant (rows, out) == UpdateDuplicates(old(rows), call, dups[..k], c)
      {
        assert dups[..k + 1][..k] == dups[..k];
        var status := NotFound;
        if dups[k].observable !in call.broken {
          status := UpdateExistingBySourceIfChanged(UpdateOf(call, dups[k]), call.pick(Done(call.mode, out)));
        }
        out := Count(call.mode, out, status);
      }
      assert dups[..|dups|] == dups;
    }

    method ImportOneChunk(call: Call, chunk: seq<Entry>, c: Counts) returns (out: Counts)
      modifies this
      ensures (rows, out) == ImportChunk(old(rows), call, chunk, c)
    {
      ghost var before := rows;
      var added, insertedObs := InsertMissing(call, chunk);
      var dups: seq<Entry> := [];
      for k := 0 to |chunk|
        invariant rows == before + FreshRows(before, call, chunk)
        invariant dups == Duplicates(before, call, chunk[..k])
      {
        assert chunk[..k + 1][..k] == chunk[..k] && chunk[k] in chunk;
        if chunk[k].observable !in insertedObs {
          dups := dups + [chunk[k]];
        }
      }
      assert chunk[..|chunk|] == chunk;
      out := UpdateDuplicateEntries(call, dups, c.(inserted := c.inserted + added));
    }

    /** batchInsertIocs. */
    method BatchInsertIocs(call: Call, entries: seq<Entry>, size: nat) returns (out: Counts)
      requires size > 0
      modifies this
      ensures (rows, out) == Import(old(rows), call, entries, size, NO_COUNTS)
    {
      out := NO_COUNTS;
      var i := 0;
      while i < |entries|
        invariant i <= |entries|
        invariant Import(rows, call, entries[i..], size, out) == Import(old(rows), call, entries, size, NO_COUNTS)
      {
        var end := if i + size <= |entries| then i + size else |entries|;
        assert entries[i..][..end - i] == entries[i..end] && entries[i..][end - i..] == entries[end..];
        out := ImportOneChunk(call, entries[i..end], out);
        i := end;
      }
    }
  }
}
