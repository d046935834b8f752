/** `createRevocationSynchronizer`: one sync, and the loop that repeats it
    (issuer/src/jobs/sync-revocations.ts). */
module Synchronizer {
  import opened Wrappers
  import opened Database
  import opened RevocationCache
  import opened SyncBatch
  import SyncLoop

  class RevocationSynchronizer {
    const intervalSeconds: int
    // The closure's variables.
    var timer: Option<nat>
    var stopped: bool
    // The host's timers and unsettled syncs.
    var pending: map<nat, int>
    var running: map<nat, int>
    var nextHandle: nat

    ghost function LoopState(): SyncLoop.Loop
      reads this
    {
      SyncLoop.Loop(timer, stopped, pending, running, nextHandle)
    }

    constructor (intervalSeconds: int)
      requires intervalSeconds >= 1
      ensures this.intervalSeconds == intervalSeconds && LoopState() == SyncLoop.IDLE
    {
      this.intervalSeconds := intervalSeconds;
      timer, stopped := None, true;
      pending, running, nextHandle := map[], map[], 0;
    }

    /** `syncOnce`: `rows` is what the snapshot query answered; the fates are those of the two writes. */
    method SyncOnce(redis: Redis, ghost tables: Tables, rows: Result<seq<ActiveRevocation>>, startedAt: int,
                    execFate: CommandFate, leaseAt: int, leaseFate: CommandFate) returns (r: Result<nat>)
      requires tables.Valid()
      requires rows.Success? ==> IsActiveListing(tables, startedAt, rows.value)
      modifies redis
      ensures r == SyncResult(rows, execFate, leaseFate)
      ensures redis.keys
           == AfterSync(old(redis.keys), rows, startedAt, execFate, FreshnessTtlSeconds(intervalSeconds), leaseAt,
                       leaseFate)
    {
      if rows.Failure? {
        return Failure;
      }
      var batch: seq<(string, int)> := [];
      var rowsSynced: nat := 0;
      for i := 0 to |rows.value|
        invariant batch == BatchOf(rows.value[..i], startedAt)
        invariant rowsSynced == |batch|
      {
        assert rows.value[..i + 1][..i] == rows.value[..i];
        var row := rows.value[i];
        var expiresAtSeconds := RevocationExpirySeconds(row.expiresAt, startedAt);
        if expiresAtSeconds.None? {
          continue;
        }
        batch := batch + [(row.jti, expiresAtSeconds.value)];
        rowsSynced := rowsSynced + 1;
      }
      assert rows.value[..|rows.value|] == rows.value;
      BatchRows(tables, rows.value, startedAt);
      if rowsSynced > 0 {
        var ok := redis.Exec(batch, execFate);
        if !ok {
          return Failure;
        }
      }
      var ok := redis.SetLease(startedAt, intervalSeconds * 3, leaseAt, leaseFate);
      r := if ok then Success(rowsSynced) else Failure;
    }

    method Schedule(now: int)
      modifies this
      ensures LoopState() == SyncLoop.Schedule(old(LoopState()), now, SyncLoop.IntervalMillis(intervalSeconds))
    {
      if stopped {
        return;
      }
      timer := Some(nextHandle);
      pending := pending[nextHandle := now + intervalSeconds * 1000];
      nextHandle := nextHandle + 1;
    }

    method Start(now: int)
      modifies this
      ensures LoopState() == SyncLoop.Start(old(LoopState()), now, SyncLoop.IntervalMillis(intervalSeconds))
    {
      if !stopped {
        return;
      }
      stopped := false;
      Schedule(now);
    }

    method Stop()
      modifies this
      ensures LoopState() == SyncLoop.Stop(old(LoopState()))
    {
      stopped := true;
      if timer.Some? {
        pending := pending - {timer.value};
        timer := None;
      }
    }

    /** The callback of the timer `handle`, which begins the sync `sync`. */
    method TimerFires(handle: nat, sync: nat, now: int)
      modifies this
      ensures LoopState() == SyncLoop.Fire(old(LoopState()), handle, sync, now)
    {
      pending := pending - {handle};
      timer := None;
      running := running[sync := now];
    }

    /** `finally(schedule)`. */
    method SyncSettles(sync: nat, now: int)
      modifies this
      ensures LoopState() == SyncLoop.Settle(old(LoopState()), sync, now, SyncLoop.IntervalMillis(intervalSeconds))
    {
      running := running - {sync};
      Schedule(now);
    }
  }
}
