/** The deep-search tables for one search, with the store's statements and the batched drain loop. */
module DeepSearchTables {
  import opened Options
  import opened DeepSearch

  class DeepSearchStore {
    var row: Option<Search>
    var spool: set<SpoolRow>

    constructor ()
      ensures row == Some(Search(Queued, false, None, None)) && spool == {}
    {
      row, spool := Some(Search(Queued, false, None, None)), {};
    }

    method ClaimForProcessing() returns (won: bool)
      modifies this`row
      ensures won <==> old(row).Some? && old(row).value.status.Queued?
      ensures if won then row == Some(old(row).value.(status := Running)) else row == old(row)
    {
      won := row.Some? && row.value.status.Queued?;
      if won {
        row := Some(row.value.(status := Running));
      }
    }

    method MarkCompleted(matchCount: nat, expiresAt: int) returns (completed: bool)
      modifies this`row
      ensures completed <==> old(row).Some? && old(row).value.status.Running? && !old(row).value.cancelRequested
      ensures row == if completed then Some(Search(Completed, false, Some(matchCount), Some(expiresAt))) else old(row)
      ensures old(row).Some? ==> row == Some(CompleteRow(old(row).value, matchCount, expiresAt))
    {
      completed := row.Some? && row.value.status.Running? && !row.value.cancelRequested;
      if completed {
        row := Some(row.value.(status := Completed, matchCount := Some(matchCount), expiresAt := Some(expiresAt)));
      }
    }

    method MarkFailed()
      modifies this`row
      ensures row == if old(row).Some? then Some(old(row).value.(status := Failed)) else None
    {
      if row.Some? {
        row := Some(row.value.(status := Failed));
      }
    }

    method MarkCancelled()
      modifies this`row
      ensures row == if old(row).Some? then Some(old(row).value.(status := Cancelled)) else None
    {
      if row.Some? {
        row := Some(row.value.(status := Cancelled));
      }
    }

    method RequestCancel() returns (found: bool)
      modifies this`row
      ensures found <==> old(row).Some? && (old(row).value.status.Queued? || old(row).value.status.Running?)
      ensures found ==> row.Some? && row.value.cancelRequested
      ensures found ==> row.value.status == if old(row).value.status.Queued? then Cancelled else Running
      ensures !found ==> row == old(row)
      ensures old(row).Some? ==> row == Some(RequestCancelRow(old(row).value))
    {
      found := row.Some? && (row.value.status.Queued? || row.value.status.Running?);
      if found {
        var status := if row.value.status.Queued? then Cancelled else row.value.status;
        row := Some(row.value.(cancelRequested := true, status := status));
      }
    }

    method MarkExpired() returns (marked: bool)
      modifies this`row
      ensures marked <==> old(row).Some? && (old(row).value.status.Completed? || old(row).value.status.Expired?)
      ensures row == if marked then Some(old(row).value.(status := Expired, matchCount := None)) else old(row)
      ensures old(row).Some? ==> row == Some(ExpireRow(old(row).value))
    {
      marked := row.Some? && (row.value.status.Completed? || row.value.status.Expired?);
      if marked {
        row := Some(row.value.(status := Expired, matchCount := None));
      }
    }

    method DeleteMetadataRow() returns (gone: bool)
      modifies this`row
      ensures gone <==> old(row).Some? && old(row).value.status in {Expired, Failed, Cancelled}
      ensures gone <==> old(row).Some? && Purgeable(old(row).value)
      ensures row == if gone then None else old(row)
    {
      gone := row.Some? && (row.value.status.Expired? || row.value.status.Failed? || row.value.status.Cancelled?);
      if gone {
        row := None;
      }
    }

    /** One bounded DELETE; which rows it takes is up to the database. */
    method DeleteResultsBatch(batchSize: int) returns (n: nat)
      modifies this`spool
      ensures spool <= old(spool) && IsBatch(batchSize, old(spool), old(spool) - spool)
      ensures n == |old(spool)| - |spool| == |old(spool) - spool|
    {
      n := 0;
      while n < Limit(batchSize) && spool != {}
        invariant spool <= old(spool)
        invariant n == |old(spool) - spool| == |old(spool)| - |spool| && n <= Limit(batchSize)
      {
        var r :| r in spool;
        assert old(spool) - (spool - {r}) == (old(spool) - spool) + {r};
        spool := spool - {r};
        n := n + 1;
      }
    }

    /**
     The worker's and the sweep's loop: delete batches until a short one. It terminates for every
     positive batch size, and it empties the spool exactly when the batch size is within the bound
     deleteResultsBatch enforces, or the whole spool fits into one bounded batch.
     */
    method Drain(batchSize: int) returns (deleted: nat)
      requires batchSize >= 1
      modifies this`spool
      ensures spool <= old(spool) && deleted == |old(spool)| - |spool|
      ensures spool == {} <==> batchSize <= MAX_DELETE || |old(spool)| <= MAX_DELETE
    {
      deleted := 0;
      while true
        invariant spool <= old(spool) && deleted == |old(spool)| - |spool|
        invariant batchSize > MAX_DELETE ==> spool == old(spool)
        decreases |spool|
      {
        var n := DeleteResultsBatch(batchSize);
        deleted := deleted + n;
        if n < batchSize {
          break;
        }
      }
    }

    /**
     The expiry branch of the retention sweep for one search. Under the configured batch size the spool
     is empty when the row turns expired.
     */
    method ExpireCompleted(now: int, bulkJobActive: bool, batchSize: int) returns (expired: bool)
      requires 1 <= batchSize <= MAX_DELETE
      modifies this`row, this`spool
      ensures expired <==> !bulkJobActive && old(row).Some? && old(row).value.status.Completed?
                           && old(row).value.expiresAt.Some? && old(row).value.expiresAt.value <= now
      ensures if expired then row == Some(ExpireRow(old(row).value)) && spool == {}
              else row == old(row) && spool == old(spool)
    {
      expired := false;
      if row.Some? && row.value.status.Completed? && row.value.expiresAt.Some? && row.value.expiresAt.value <= now {
        if bulkJobActive {
          return;
        }
        var _ := Drain(batchSize);
        expired := MarkExpired();
      }
    }
  }
}
