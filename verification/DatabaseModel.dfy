/**
 * The database behind the hub: one object whose fields are the tables.  A method's `ok` says whether SQLite
 * executed the statement (or committed the transaction); a failed one leaves the tables as they were.
 */
module DatabaseModel {
  import opened Prelude
  import P = PairingSpec
  import S = SettingsSpec

  datatype DbError = DbError

  class Database {
    var pairedClients: P.ClientTable
    var fileChunks: map<(int, int), Bytes>
    var settings: S.Settings
    var requestLogs: seq<S.LogRow>
    var lastLogId: nat

    /** A new database file: empty tables and the default settings. */
    constructor ()
      ensures pairedClients == map[] && fileChunks == map[] && Log() == S.FRESH
    {
      pairedClients, fileChunks := map[], map[];
      settings, requestLogs, lastLogId := S.DEFAULTS, [], 0;
    }

    /** The settings and the log, as the value that the runs of SettingsSpec are about. */
    function Log(): S.Db
      reads this`settings, this`requestLogs, this`lastLogId
    {
      S.Db(settings, requestLogs, lastLogId)
    }

    // ---------- paired_clients ----------

    method SaveClient(id: ClientId, pairedAtMs: int, key: Bytes, ok: bool) returns (r: Result<(), DbError>)
      modifies this`pairedClients
      ensures r == if ok then Ok(()) else Err(DbError)
      ensures pairedClients ==
              if ok then P.UpsertClient(old(pairedClients), id, pairedAtMs, key) else old(pairedClients)
    {
      if !ok { return Err(DbError); }
      if id in pairedClients {
        var row := pairedClients[id];
        pairedClients := pairedClients[id := P.ClientRow(pairedAtMs, key, row.syncInfoJson, row.lastSeenMs, true)];
      } else {
        pairedClients := pairedClients[id := P.ClientRow(pairedAtMs, key, None, None, true)];
      }
      return Ok(());
    }

    method UpdateClientSyncInfo(id: ClientId, json: Bytes, lastSeenMs: int, ok: bool) returns (r: Result<(), DbError>)
      modifies this`pairedClients
      ensures r == if ok then Ok(()) else Err(DbError)
      ensures pairedClients ==
              if ok then P.SetSyncInfo(old(pairedClients), id, json, lastSeenMs) else old(pairedClients)
    {
      if !ok { return Err(DbError); }
      if id in pairedClients {
        var row := pairedClients[id];
        pairedClients := pairedClients[id := row.(syncInfoJson := Some(json), lastSeenMs := Some(lastSeenMs))];
      }
      return Ok(());
    }

    method TouchClient(id: ClientId, lastSeenMs: int, ok: bool) returns (r: Result<(), DbError>)
      modifies this`pairedClients
      ensures r == if ok then Ok(()) else Err(DbError)
      ensures pairedClients == if ok then P.SetLastSeen(old(pairedClients), id, lastSeenMs) else old(pairedClients)
    {
      if !ok { return Err(DbError); }
      if id in pairedClients {
        pairedClients := pairedClients[id := pairedClients[id].(lastSeenMs := Some(lastSeenMs))];
      }
      return Ok(());
    }

    method RemoveClient(id: ClientId, ok: bool) returns (r: Result<(), DbError>)
      modifies this`pairedClients
      ensures r == if ok then Ok(()) else Err(DbError)
      ensures pairedClients == if ok then old(pairedClients) - {id} else old(pairedClients)
    {
      if !ok { return Err(DbError); }
      pairedClients := pairedClients - {id};
      return Ok(());
    }

    // ---------- file_chunks ----------

    method SaveFileChunk(pasteId: int, chunkIndex: nat, data: Bytes, ok: bool) returns (r: Result<(), DbError>)
      modifies this`fileChunks
      ensures r == if ok then Ok(()) else Err(DbError)
      ensures fileChunks == if ok then old(fileChunks)[(pasteId, UsizeAsI64(chunkIndex)) := data] else old(fileChunks)
    {
      if !ok { return Err(DbError); }
      fileChunks := fileChunks[(pasteId, UsizeAsI64(chunkIndex)) := data];
      return Ok(());
    }

    method LoadFileChunk(pasteId: int, chunkIndex: nat) returns (r: Option<Bytes>)
      ensures r == Lookup(fileChunks, (pasteId, UsizeAsI64(chunkIndex)))
    {
      if (pasteId, UsizeAsI64(chunkIndex)) in fileChunks {
        return Some(fileChunks[(pasteId, UsizeAsI64(chunkIndex))]);
      }
      return None;
    }

    // ---------- settings and request_logs ----------

    /** Deletes the rows whose id is not among the newest `retention`, one row after another. */
    method PruneRequestLogs(retention: nat)
      modifies this`requestLogs
      ensures requestLogs == S.Prune(old(requestLogs), retention)
    {
      var all, limit := requestLogs, UsizeAsI64(retention);
      var kept: seq<S.LogRow> := [];
      assert all[0..] == all;
      for i := 0 to |all|
        invariant S.KeepFrom(all, all, limit) == kept + S.KeepFrom(all[i..], all, limit)
      {
        assert all[i..][1..] == all[i + 1..];
        if S.IsKept(all, all[i].id, limit) {
          kept := kept + [all[i]];
        }
      }
      requestLogs := kept;
    }

    method RequestLog(entry: S.LogEntry, ok: bool) returns (r: Result<(), DbError>)
      modifies this`requestLogs, this`lastLogId
      ensures r == if ok then Ok(()) else Err(DbError)
      ensures Log() == if ok then S.InsertLog(old(Log()), entry) else old(Log())
    {
      if !ok { return Err(DbError); }
      lastLogId := lastLogId + 1;
      requestLogs := requestLogs + [S.LogRow(lastLogId, entry)];
      PruneRequestLogs(S.Retention(settings));
      return Ok(());
    }

    /** Every pair of the update is upserted, in whatever order the hash map yields them; then the log is pruned. */
    method UpdateSettings(update: S.Settings, ok: bool) returns (r: Result<(), DbError>)
      modifies this`settings, this`requestLogs
      ensures r == if ok then Ok(()) else Err(DbError)
      ensures Log() == if ok then S.ApplySettings(old(Log()), update) else old(Log())
    {
      if !ok { return Err(DbError); }
      var todo := update.Keys;
      while todo != {}
        invariant todo <= update.Keys && requestLogs == old(requestLogs)
        invariant settings == old(settings) + (map key | key in update && key !in todo :: update[key])
        decreases todo
      {
        var key :| key in todo;
        settings := settings[key := update[key]];
        todo := todo - {key};
      }
      assert (map key | key in update && key !in todo :: update[key]) == update;
      if "log_retention_count" in update {
        PruneRequestLogs(S.Retention(settings));
      }
      return Ok(());
    }
  }
}
