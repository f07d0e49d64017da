/**
 * The settings table and the two things it bounds: the size of accepted files and the length of the request log.
 * Runs start from the default settings; every update passes the validation of the admin interface.
 */
module SettingsSpec {
  import opened Prelude
  import opened Chunking
  import opened Decimal
  import opened RelaySpec

  type Settings = map<string, string>

  const DEFAULT_RETENTION: nat := 10_000
  const DEFAULT_MAX_MB: nat := 512

  const DEFAULTS: Settings := map[
    "encrypt_sync" := "true",
    "limit_file_size" := "true",
    "max_file_size_mb" := "512",
    "clipboard_relay" := "true",
    "sync_text" := "true",
    "sync_url" := "true",
    "sync_html" := "true",
    "sync_rtf" := "true",
    "sync_image" := "true",
    "sync_file" := "true",
    "sync_color" := "true",
    "log_retention_count" := "10000"]

  datatype SettingsError = UnknownKey | BadMaxSize | BadRetention | BadSwitch

  predicate IsNumberKey(key: string) {
    key == "max_file_size_mb" || key == "log_retention_count"
  }

  predicate ParsesWithin(value: string, low: nat, high: nat) {
    match ParseUnsigned(value, U64_LIMIT)
    case None => false
    case Some(n) => low <= n <= high
  }

  function ValidateSettings(update: Settings): Result<(), SettingsError> {
    if exists key <- update :: key !in DEFAULTS then Err(UnknownKey)
    else if "max_file_size_mb" in update && !ParsesWithin(update["max_file_size_mb"], 1, 102_400) then
      Err(BadMaxSize)
    else if "log_retention_count" in update && !ParsesWithin(update["log_retention_count"], 1_000, 1_000_000) then
      Err(BadRetention)
    else if exists key <- update :: !IsNumberKey(key) && update[key] != "true" && update[key] != "false" then
      Err(BadSwitch)
    else Ok(())
  }

  // ---------- The gate in front of a paste ----------

  datatype GateError = RelayDisabled | UnknownType | TypeDisabled | TooLarge

  function TypeSetting(pasteType: int): Option<string> {
    if pasteType == 0 then Some("sync_text")
    else if pasteType == 1 then Some("sync_url")
    else if pasteType == 2 then Some("sync_html")
    else if pasteType == 3 then Some("sync_file")
    else if pasteType == 4 then Some("sync_image")
    else if pasteType == 5 then Some("sync_rtf")
    else if pasteType == 6 then Some("sync_color")
    else None
  }

  function MaxMb(settings: Settings): nat {
    match Lookup(settings, "max_file_size_mb")
    case None => DEFAULT_MAX_MB
    case Some(value) =>
      match ParseUnsigned(value, U64_LIMIT)
      case None => DEFAULT_MAX_MB
      case Some(n) => n
  }

  function PasteTypeOf(paste: Paste): int {
    match AsI64(paste.pasteType)
    case None => -1
    case Some(t) => t
  }

  predicate LimitIsOn(settings: Settings) {
    Lookup(settings, "limit_file_size") in {None, Some("true")}
  }

  predicate TooBig(settings: Settings, paste: Paste) {
    var size := match AsU64(paste.size) case None => 0 case Some(n) => n;
    size > MaxMb(settings) * 1024 * 1024
  }

  function EnforceSyncSettings(settings: Settings, paste: Paste): Result<(), GateError> {
    if Lookup(settings, "clipboard_relay") == Some("false") then Err(RelayDisabled)
    else
      match TypeSetting(PasteTypeOf(paste))
      case None => Err(UnknownType)
      case Some(setting) =>
        if Lookup(settings, setting) == Some("false") then Err(TypeDisabled)
        else if PasteTypeOf(paste) in {3, 4} && LimitIsOn(settings) && TooBig(settings, paste) then Err(TooLarge)
        else Ok(())
  }

  // ---------- The request log ----------

  datatype LogEntry = LogEntry(
    httpMethod: string, path: string, status: nat, remoteAddr: string,
    clientId: Option<string>, targetId: Option<string>, secure: bool, elapsedMs: int, createdAtMs: int)

  datatype LogRow = LogRow(id: nat, entry: LogEntry)

  function Retention(settings: Settings): nat {
    match Lookup(settings, "log_retention_count")
    case None => DEFAULT_RETENTION
    case Some(value) =>
      match ParseUnsigned(value, U64_LIMIT)
      case None => DEFAULT_RETENTION
      case Some(n) => n
  }

  function NewerIds(rows: seq<LogRow>, id: nat): set<nat> {
    set r | r in rows && r.id > id :: r.id
  }

  /** Whether an id is among the first `limit` of all ids in descending order; a negative limit means no limit. */
  predicate IsKept(rows: seq<LogRow>, id: nat, limit: int) {
    limit < 0 || |NewerIds(rows, id)| < limit
  }

  function KeepFrom(rows: seq<LogRow>, all: seq<LogRow>, limit: int): seq<LogRow> {
    if rows == [] then []
    else (if IsKept(all, rows[0].id, limit) then [rows[0]] else []) + KeepFrom(rows[1..], all, limit)
  }

  /** The delete statement: rows whose id is not among the newest `retention` are removed. */
  function Prune(rows: seq<LogRow>, retention: nat): seq<LogRow> {
    KeepFrom(rows, rows, UsizeAsI64(retention))
  }

  predicate Ascending(rows: seq<LogRow>) {
    forall i, j | 0 <= i < j < |rows| :: rows[i].id < rows[j].id
  }

  function Last<T>(s: seq<T>, n: nat): seq<T> {
    if |s| <= n then s else s[|s| - n..]
  }

  lemma {:induction false} IdsOfAscending(rows: seq<LogRow>)
    requires Ascending(rows)
    ensures |set r | r in rows :: r.id| == |rows|
    decreases |rows|
  {
    if rows == [] {
      assert (set r | r in rows :: r.id) == {};
    } else {
      var init, last := rows[..|rows| - 1], rows[|rows| - 1];
      IdsOfAscending(init);
      assert last.id !in (set r | r in init :: r.id);
      assert rows == init + [last];
      assert (set r | r in rows :: r.id) == (set r | r in init :: r.id) + {last.id};
    }
  }

  lemma NewerInAscending(rows: seq<LogRow>, i: nat)
    requires Ascending(rows) && i < |rows|
    ensures |NewerIds(rows, rows[i].id)| == |rows| - 1 - i
  {
    var tail := rows[i + 1..];
    IdsOfAscending(tail);
    forall id ensures id in NewerIds(rows, rows[i].id) <==> id in (set r | r in tail :: r.id) {
      if id in NewerIds(rows, rows[i].id) {
        var j :| 0 <= j < |rows| && rows[j].id == id && id > rows[i].id;
        assert j > i;
        assert rows[j] == tail[j - i - 1];
      }
      if r :| r in tail && r.id == id {
        var j :| 0 <= j < |tail| && tail[j] == r;
        assert rows[i + 1 + j] == r;
      }
    }
    assert NewerIds(rows, rows[i].id) == (set r | r in tail :: r.id);
  }

  lemma {:induction false} NewestAreKept(rows: seq<LogRow>, k: nat, limit: nat)
    requires Ascending(rows) && k <= |rows| <= k + limit
    ensures KeepFrom(rows[k..], rows, limit) == rows[k..]
    decreases |rows| - k
  {
    if k < |rows| {
      NewestAreKept(rows, k + 1, limit);
      NewerInAscending(rows, k);
      KeepFromUnfolds(rows, k, limit);
      assert rows[k..] == [rows[k]] + rows[k + 1..];
    }
  }

  lemma {:induction false} OlderAreDropped(rows: seq<LogRow>, k: nat, limit: nat)
    requires Ascending(rows) && k + limit <= |rows|
    ensures KeepFrom(rows[k..], rows, limit) == rows[|rows| - limit..]
    decreases |rows| - k
  {
    if k + limit == |rows| {
      NewestAreKept(rows, k, limit);
    } else {
      OlderAreDropped(rows, k + 1, limit);
      NewerInAscending(rows, k);
      KeepFromUnfolds(rows, k, limit);
    }
  }

  lemma KeepFromUnfolds(rows: seq<LogRow>, k: nat, limit: int)
    requires k < |rows|
    ensures KeepFrom(rows[k..], rows, limit) ==
            (if IsKept(rows, rows[k].id, limit) then [rows[k]] else []) + KeepFrom(rows[k + 1..], rows, limit)
  {
    assert rows[k..][1..] == rows[k + 1..];
  }

  /** On a table with ascending ids the delete keeps exactly the last rows. */
  lemma PruneKeepsTheNewest(rows: seq<LogRow>, retention: nat)
    requires Ascending(rows) && retention < I64_LIMIT
    ensures Prune(rows, retention) == Last(rows, retention)
  {
    IndexKeysDiffer(retention, retention);
    KeepAllIsLast(rows, retention);
  }

  lemma KeepAllIsLast(rows: seq<LogRow>, limit: nat)
    requires Ascending(rows)
    ensures KeepFrom(rows, rows, limit) == Last(rows, limit)
  {
    assert rows[0..] == rows;
    if |rows| <= limit {
      NewestAreKept(rows, 0, limit);
    } else {
      OlderAreDropped(rows, 0, limit);
    }
  }

  // ---------- Runs ----------

  datatype Db = Db(settings: Settings, rows: seq<LogRow>, lastId: nat)

  datatype Op = LogOp(entry: LogEntry) | SettingsOp(update: Settings)

  const FRESH: Db := Db(DEFAULTS, [], 0)

  function InsertLog(db: Db, entry: LogEntry): Db {
    var rows := db.rows + [LogRow(db.lastId + 1, entry)];
    db.(rows := Prune(rows, Retention(db.settings)), lastId := db.lastId + 1)
  }

  function ApplySettings(db: Db, update: Settings): Db {
    var settings := db.settings + update;
    db.(settings := settings,
        rows := if "log_retention_count" in update then Prune(db.rows, Retention(settings)) else db.rows)
  }

  function Step(db: Db, op: Op): Db {
    match op
    case LogOp(entry) => InsertLog(db, entry)
    case SettingsOp(update) => if ValidateSettings(update).Ok? then ApplySettings(db, update) else db
  }

  function Run(ops: seq<Op>): Db {
    if ops == [] then FRESH else Step(Run(ops[..|ops| - 1]), ops[|ops| - 1])
  }

  /** All rows ever inserted, numbered from 1. */
  function History(ops: seq<Op>): seq<LogRow> {
    if ops == [] then [] else Record(History(ops[..|ops| - 1]), ops[|ops| - 1])
  }

  function Record(all: seq<LogRow>, op: Op): seq<LogRow> {
    match op
    case LogOp(entry) => all + [LogRow(|all| + 1, entry)]
    case SettingsOp(_) => all
  }

  /** Settings that validated updates can reach from the defaults: nothing missing, every value in its range. */
  ghost predicate WellFormed(settings: Settings) {
    && settings.Keys == DEFAULTS.Keys
    && ParsesWithin(settings["max_file_size_mb"], 1, 102_400)
    && ParsesWithin(settings["log_retention_count"], 1_000, 1_000_000)
    && forall key <- settings :: !IsNumberKey(key) ==> settings[key] == "true" || settings[key] == "false"
  }

  lemma DefaultNumbers()
    ensures ParseUnsigned("512", U64_LIMIT) == Some(512)
    ensures ParseUnsigned("10000", U64_LIMIT) == Some(10_000)
  {
    TextOf512();
    TextOf10000();
    ParseOfText(512, U64_LIMIT);
    ParseOfText(10_000, U64_LIMIT);
  }

  lemma DefaultsAreWellFormed()
    ensures WellFormed(DEFAULTS) && Retention(DEFAULTS) == DEFAULT_RETENTION
  {
    DefaultNumbers();
    assert DEFAULTS["max_file_size_mb"] == "512" && DEFAULTS["log_retention_count"] == "10000";
  }

  /** Validation lets through exactly the updates that leave every setting present and in range. */
  lemma UpdateAcceptedExactly(settings: Settings, update: Settings)
    requires WellFormed(settings)
    ensures ValidateSettings(update).Ok? <==> WellFormed(settings + update)
  {
    var merged := settings + update;
    assert merged.Keys == DEFAULTS.Keys + update.Keys;
    if ValidateSettings(update).Ok? {
      assert merged.Keys == DEFAULTS.Keys;
    } else if WellFormed(merged) {
      forall key | key in update
        ensures key in DEFAULTS && (IsNumberKey(key) || update[key] == "true" || update[key] == "false")
      {
        assert key in merged && merged[key] == update[key];
      }
      assert false;
    }
  }

  /** So they are exactly the reachable ones. */
  lemma WellFormedIsReachable(settings: Settings)
    requires WellFormed(settings)
    ensures Run([SettingsOp(settings)]).settings == settings
  {
    var update := SettingsOp(settings);
    assert DEFAULTS + settings == settings;
    DefaultsAreWellFormed();
    UpdateAcceptedExactly(DEFAULTS, settings);
    var none: seq<Op> := [];
    assert [update][..0] == none;
  }

  /** The history numbers its rows from 1 without gaps. */
  ghost predicate Numbered(all: seq<LogRow>) {
    forall i | 0 <= i < |all| :: all[i].id == i + 1
  }

  ghost predicate IsEndOf(rows: seq<LogRow>, all: seq<LogRow>) {
    |rows| <= |all| && rows == all[|all| - |rows|..]
  }

  lemma LastKeepsEnd(rows: seq<LogRow>, all: seq<LogRow>, n: nat)
    requires Numbered(all) && IsEndOf(rows, all)
    ensures Ascending(rows) && IsEndOf(Last(rows, n), all) && |Last(rows, n)| <= n
  {
  }

  lemma AppendKeepsEnd(rows: seq<LogRow>, all: seq<LogRow>, row: LogRow)
    requires Numbered(all) && IsEndOf(rows, all) && row.id == |all| + 1
    ensures Numbered(all + [row]) && IsEndOf(rows + [row], all + [row])
  {
  }

  lemma PruneKeepsEnd(rows: seq<LogRow>, all: seq<LogRow>, n: nat)
    requires Numbered(all) && IsEndOf(rows, all) && n < I64_LIMIT
    ensures Prune(rows, n) == Last(rows, n)
    ensures IsEndOf(Prune(rows, n), all) && |Prune(rows, n)| <= n
  {
    LastKeepsEnd(rows, all, n);
    PruneKeepsTheNewest(rows, n);
  }

  /** One insert: what the table and the history look like afterwards. */
  lemma InsertKeepsEnd(rows: seq<LogRow>, all: seq<LogRow>, row: LogRow, n: nat)
    requires Numbered(all) && IsEndOf(rows, all) && row.id == |all| + 1 && n < I64_LIMIT
    ensures Numbered(all + [row])
    ensures Prune(rows + [row], n) == Last(rows + [row], n)
    ensures IsEndOf(Prune(rows + [row], n), all + [row]) && |Prune(rows + [row], n)| <= n
  {
    AppendKeepsEnd(rows, all, row);
    PruneKeepsEnd(rows + [row], all + [row], n);
  }

  lemma WellFormedRetention(settings: Settings)
    requires WellFormed(settings)
    ensures 1_000 <= Retention(settings) <= 1_000_000
  {
  }

  /** How a database relates to the history of all rows ever inserted. */
  ghost predicate Refines(db: Db, all: seq<LogRow>) {
    && WellFormed(db.settings)
    && Numbered(all)
    && db.lastId == |all|
    && IsEndOf(db.rows, all)
    && |db.rows| <= Retention(db.settings)
  }

  lemma InsertRefines(db: Db, all: seq<LogRow>, entry: LogEntry)
    requires Refines(db, all)
    ensures Refines(InsertLog(db, entry), Record(all, LogOp(entry)))
    ensures InsertLog(db, entry).rows == Last(db.rows + [LogRow(|all| + 1, entry)], Retention(db.settings))
  {
    var n, row := Retention(db.settings), LogRow(|all| + 1, entry);
    WellFormedRetention(db.settings);
    InsertKeepsEnd(db.rows, all, row, n);
    var after := InsertLog(db, entry);
    assert after.settings == db.settings && after.lastId == |all| + 1 && after.rows == Prune(db.rows + [row], n);
  }

  lemma UpdateRefines(db: Db, all: seq<LogRow>, update: Settings)
    requires Refines(db, all) && ValidateSettings(update).Ok?
    ensures Refines(ApplySettings(db, update), all)
  {
    UpdateAcceptedExactly(db.settings, update);
    WellFormedRetention(db.settings + update);
    if "log_retention_count" in update {
      PruneKeepsEnd(db.rows, all, Retention(db.settings + update));
    }
  }

  /**
   * Log retention refines a plain history: under any mix of inserts and validated updates, the table is the
   * end of the history of all rows ever inserted, in ascending order of id, never longer than the retention.
   */
  lemma {:induction false} LogIsEndOfHistory(ops: seq<Op>)
    ensures Refines(Run(ops), History(ops)) && Ascending(Run(ops).rows)
    decreases |ops|
  {
    if ops == [] {
      DefaultsAreWellFormed();
    } else {
      var db, all, op := Run(ops[..|ops| - 1]), History(ops[..|ops| - 1]), ops[|ops| - 1];
      LogIsEndOfHistory(ops[..|ops| - 1]);
      match op
      case LogOp(entry) => InsertRefines(db, all, entry);
      case SettingsOp(update) =>
        if ValidateSettings(update).Ok? {
          UpdateRefines(db, all, update);
        }
    }
    LastKeepsEnd(Run(ops).rows, History(ops), 0);
  }

  // ---------- What is stored is what was last set ----------

  /** The text last put under this key by a validated update, or its default. */
  function LatestText(ops: seq<Op>, key: string): Option<string> {
    if ops == [] then Lookup(DEFAULTS, key)
    else
      var op := ops[|ops| - 1];
      if op.SettingsOp? && ValidateSettings(op.update).Ok? && key in op.update then Some(op.update[key])
      else LatestText(ops[..|ops| - 1], key)
  }

  lemma StepKeepsText(db: Db, op: Op, key: string)
    ensures Lookup(Step(db, op).settings, key) ==
            if op.SettingsOp? && ValidateSettings(op.update).Ok? && key in op.update then Some(op.update[key])
            else Lookup(db.settings, key)
  {
  }

  lemma {:induction false} SettingsAreLatest(ops: seq<Op>, key: string)
    ensures Lookup(Run(ops).settings, key) == LatestText(ops, key)
    decreases |ops|
  {
    if ops != [] {
      SettingsAreLatest(ops[..|ops| - 1], key);
      StepKeepsText(Run(ops[..|ops| - 1]), ops[|ops| - 1], key);
    }
  }

  /** In every run the limit and the retention are the numbers that the texts last set for them denote. */
  lemma NumbersAreLatest(ops: seq<Op>)
    ensures
      var mb, rows := LatestText(ops, "max_file_size_mb"), LatestText(ops, "log_retention_count");
      && mb.Some? && ParseUnsigned(mb.value, U64_LIMIT) == Some(MaxMb(Run(ops).settings))
      && rows.Some? && ParseUnsigned(rows.value, U64_LIMIT) == Some(Retention(Run(ops).settings))
  {
    LogIsEndOfHistory(ops);
    SettingsAreLatest(ops, "max_file_size_mb");
    SettingsAreLatest(ops, "log_retention_count");
  }

  lemma NumberIsAccepted(key: string, n: nat)
    requires || (key == "max_file_size_mb" && 1 <= n <= 102_400)
             || (key == "log_retention_count" && 1_000 <= n <= 1_000_000)
    ensures ValidateSettings(map[key := ToText(n)]).Ok?
    ensures ParseUnsigned(ToText(n), U64_LIMIT) == Some(n)
  {
    ParseOfText(n, U64_LIMIT);
    assert key in DEFAULTS;
  }

  /** Setting the limit to the text of n makes it n. */
  lemma LimitCanBeSet(ops: seq<Op>, n: nat)
    requires 1 <= n <= 102_400
    ensures MaxMb(Run(ops + [SettingsOp(map["max_file_size_mb" := ToText(n)])]).settings) == n
  {
    var op := SettingsOp(map["max_file_size_mb" := ToText(n)]);
    NumberIsAccepted("max_file_size_mb", n);
    NumbersAreLatest(ops + [op]);
    assert (ops + [op])[..|ops|] == ops;
  }

  predicate TouchesRetention(op: Op) {
    op.SettingsOp? && "log_retention_count" in op.update
  }

  lemma LastOfLast(all: seq<LogRow>, row: LogRow, n: nat)
    ensures Last(Last(all, n) + [row], n) == Last(all + [row], n)
  {
  }

  /** The table under retention `n` is exactly the last `n` rows ever inserted, or all if there are fewer. */
  ghost predicate IsExactly(db: Db, all: seq<LogRow>, n: nat) {
    Retention(db.settings) == n && db.rows == Last(all, n)
  }

  lemma UpdateStaysExact(db: Db, all: seq<LogRow>, update: Settings, n: nat)
    requires IsExactly(db, all, n) && "log_retention_count" !in update
    ensures IsExactly(ApplySettings(db, update), all, n)
  {
    assert Lookup(db.settings + update, "log_retention_count") == Lookup(db.settings, "log_retention_count");
  }

  lemma InsertStaysExact(db: Db, all: seq<LogRow>, entry: LogEntry, n: nat)
    requires Refines(db, all) && IsExactly(db, all, n)
    ensures IsExactly(InsertLog(db, entry), Record(all, LogOp(entry)), n)
  {
    InsertRefines(db, all, entry);
    LastOfLast(all, LogRow(|all| + 1, entry), n);
  }

  lemma StepStaysExact(db: Db, all: seq<LogRow>, op: Op, n: nat)
    requires Refines(db, all) && IsExactly(db, all, n) && !TouchesRetention(op)
    ensures IsExactly(Step(db, op), Record(all, op), n)
  {
    match op
    case LogOp(entry) => InsertStaysExact(db, all, entry, n);
    case SettingsOp(update) => UpdateStaysExact(db, all, update, n);
  }

  /** While the retention is not changed, nothing is lost beyond what it demands. */
  lemma {:induction false} ConstantRetentionIsExact(ops: seq<Op>, more: seq<Op>, n: nat)
    requires IsExactly(Run(ops), History(ops), n)
    requires forall op <- more :: !TouchesRetention(op)
    ensures IsExactly(Run(ops + more), History(ops + more), n)
    decreases |more|
  {
    if more == [] {
      assert ops + more == ops;
    } else {
      var before, op := ops + more[..|more| - 1], more[|more| - 1];
      assert op in more;
      ConstantRetentionIsExact(ops, more[..|more| - 1], n);
      OneMoreStaysExact(before, op, n);
      assert ops + more == before + [op];
    }
  }

  lemma OneMoreStaysExact(before: seq<Op>, op: Op, n: nat)
    requires IsExactly(Run(before), History(before), n) && !TouchesRetention(op)
    ensures IsExactly(Run(before + [op]), History(before + [op]), n)
  {
    LogIsEndOfHistory(before);
    StepStaysExact(Run(before), History(before), op, n);
    RunOneMore(before, op);
  }

  lemma RunOneMore(before: seq<Op>, op: Op)
    ensures Run(before + [op]) == Step(Run(before), op)
    ensures History(before + [op]) == Record(History(before), op)
  {
    assert (before + [op])[..|before|] == before;
  }

  /** The table under retention `n` is the last `n` of what it held when that was set and all rows inserted since. */
  ghost predicate IsExactlySince(db: Db, all: seq<LogRow>, n: nat, kept: seq<LogRow>, start: nat) {
    Retention(db.settings) == n && start <= |all| && db.rows == Last(kept + all[start..], n)
  }

  lemma InsertStaysExactSince(db: Db, all: seq<LogRow>, entry: LogEntry, n: nat, kept: seq<LogRow>, start: nat)
    requires Refines(db, all) && IsExactlySince(db, all, n, kept, start)
    ensures IsExactlySince(InsertLog(db, entry), Record(all, LogOp(entry)), n, kept, start)
  {
    var row := LogRow(|all| + 1, entry);
    InsertRefines(db, all, entry);
    LastOfLast(kept + all[start..], row, n);
    assert kept + (all + [row])[start..] == kept + all[start..] + [row];
  }

  lemma StepStaysExactSince(db: Db, all: seq<LogRow>, op: Op, n: nat, kept: seq<LogRow>, start: nat)
    requires Refines(db, all) && IsExactlySince(db, all, n, kept, start) && !TouchesRetention(op)
    ensures IsExactlySince(Step(db, op), Record(all, op), n, kept, start)
  {
    match op
    case LogOp(entry) => InsertStaysExactSince(db, all, entry, n, kept, start);
    case SettingsOp(update) =>
      assert Lookup(db.settings + update, "log_retention_count") == Lookup(db.settings, "log_retention_count");
  }

  lemma SettingTheRetention(ops: seq<Op>, n: nat)
    requires 1_000 <= n <= 1_000_000
    ensures
      var after := ops + [SettingsOp(map["log_retention_count" := ToText(n)])];
      && History(after) == History(ops)
      && IsExactlySince(Run(after), History(after), n, Run(ops).rows, |History(ops)|)
  {
    var op := SettingsOp(map["log_retention_count" := ToText(n)]);
    NumberIsAccepted("log_retention_count", n);
    NumbersAreLatest(ops + [op]);
    RunOneMore(ops, op);
    LogIsEndOfHistory(ops);
    PruneKeepsEnd(Run(ops).rows, History(ops), n);
    assert Run(ops).rows + History(ops)[|History(ops)|..] == Run(ops).rows;
  }

  lemma OneMoreStaysExactSince(before: seq<Op>, op: Op, n: nat, kept: seq<LogRow>, start: nat)
    requires IsExactlySince(Run(before), History(before), n, kept, start) && !TouchesRetention(op)
    ensures IsExactlySince(Run(before + [op]), History(before + [op]), n, kept, start)
  {
    LogIsEndOfHistory(before);
    StepStaysExactSince(Run(before), History(before), op, n, kept, start);
    RunOneMore(before, op);
  }

  /**
   * Setting the retention to the text of n takes effect at once and exactly: however the run goes on, until it is set
   * again, the table is the last n of the rows it held at that moment followed by all rows inserted since.
   */
  lemma RetentionTakesEffect(ops: seq<Op>, n: nat, more: seq<Op>)
    requires 1_000 <= n <= 1_000_000 && forall op <- more :: !TouchesRetention(op)
    ensures
      var all := ops + [SettingsOp(map["log_retention_count" := ToText(n)])] + more;
      IsExactlySince(Run(all), History(all), n, Run(ops).rows, |History(ops)|)
  {
    var first := ops + [SettingsOp(map["log_retention_count" := ToText(n)])];
    var kept, start := Run(ops).rows, |History(ops)|;
    var exact := run => IsExactlySince(Run(run), History(run), n, kept, start);
    var allowed := op => !TouchesRetention(op);
    SettingTheRetention(ops, n);
    forall before, op | exact(before) && allowed(op) ensures exact(before + [op]) {
      OneMoreStaysExactSince(before, op, n, kept, start);
    }
    AllowedStepsKeep(exact, allowed, first, more);
    assert exact(first + more);
  }

  /** From a fresh database with the default retention: exactly the last min(10000, total) rows. */
  lemma DefaultRetentionIsExact(ops: seq<Op>)
    requires forall op <- ops :: !TouchesRetention(op)
    ensures IsExactly(Run(ops), History(ops), DEFAULT_RETENTION)
  {
    assert [] + ops == ops;
    DefaultsAreWellFormed();
    ConstantRetentionIsExact([], ops, DEFAULT_RETENTION);
  }

  // ---------- The gate and the size limit ----------

  /** The switch of each paste type, by type number. */
  const SWITCHES: seq<string> :=
    ["sync_text", "sync_url", "sync_html", "sync_file", "sync_image", "sync_rtf", "sync_color"]

  function ChunksOf(paste: Paste): nat {
    match AsU64(paste.size)
    case None => 0
    case Some(size) => CeilDiv(size, FILE_CHUNK_SIZE)
  }

  lemma TooBigIsTooManyChunks(settings: Settings, paste: Paste)
    ensures TooBig(settings, paste) <==> ChunksOf(paste) > MaxMb(settings)
  {
    var m := MaxMb(settings);
    assert m * 1024 * 1024 == m * FILE_CHUNK_SIZE;
    if AsU64(paste.size).Some? {
      var size := AsU64(paste.size).value;
      CeilDivIsLeastCover(size, FILE_CHUNK_SIZE);
      if size <= m * FILE_CHUNK_SIZE { CeilDivBound(size, FILE_CHUNK_SIZE, m); }
      if ChunksOf(paste) <= m { ProductsAscend(ChunksOf(paste), m, FILE_CHUNK_SIZE); }
    }
  }

  /**
   * In every reachable settings state a paste passes exactly when the relay and the switch of its type are on and,
   * for files and images under the limit, it takes at most `max_file_size_mb` chunks.
   */
  lemma GateExactly(ops: seq<Op>, paste: Paste)
    ensures
      var (settings, t) := (Run(ops).settings, PasteTypeOf(paste));
      && DEFAULTS.Keys == settings.Keys
      && (EnforceSyncSettings(settings, paste).Ok? <==>
            && settings["clipboard_relay"] == "true"
            && 0 <= t < |SWITCHES| && SWITCHES[t] in settings && settings[SWITCHES[t]] == "true"
            && (t in {3, 4} && settings["limit_file_size"] == "true" ==> ChunksOf(paste) <= MaxMb(settings)))
  {
    LogIsEndOfHistory(ops);
    GateOfWellFormed(Run(ops).settings, paste);
  }

  /** The reason a paste is refused for, in every reachable settings state: the first that applies. */
  lemma GateAnswersExactly(ops: seq<Op>, paste: Paste)
    ensures
      var (settings, t) := (Run(ops).settings, PasteTypeOf(paste));
      && DEFAULTS.Keys == settings.Keys
      && EnforceSyncSettings(settings, paste) ==
         if settings["clipboard_relay"] == "false" then Err(RelayDisabled)
         else if t < 0 || t >= |SWITCHES| then Err(UnknownType)
         else if SWITCHES[t] in settings && settings[SWITCHES[t]] == "false" then Err(TypeDisabled)
         else if t in {3, 4} && settings["limit_file_size"] == "true" && ChunksOf(paste) > MaxMb(settings) then
           Err(TooLarge)
         else Ok(())
  {
    LogIsEndOfHistory(ops);
    var settings, t := Run(ops).settings, PasteTypeOf(paste);
    TooBigIsTooManyChunks(settings, paste);
    SwitchOf(settings, "clipboard_relay");
    SwitchOf(settings, "limit_file_size");
    TypeHasSwitch(t);
    if 0 <= t < |SWITCHES| { SwitchOf(settings, SWITCHES[t]); }
  }

  lemma GateOfWellFormed(settings: Settings, paste: Paste)
    requires WellFormed(settings)
    ensures
      var t := PasteTypeOf(paste);
      EnforceSyncSettings(settings, paste).Ok? <==>
        && settings["clipboard_relay"] == "true"
        && 0 <= t < |SWITCHES| && SWITCHES[t] in settings && settings[SWITCHES[t]] == "true"
        && (t in {3, 4} && settings["limit_file_size"] == "true" ==> ChunksOf(paste) <= MaxMb(settings))
  {
    var t := PasteTypeOf(paste);
    TooBigIsTooManyChunks(settings, paste);
    SwitchOf(settings, "clipboard_relay");
    SwitchOf(settings, "limit_file_size");
    TypeHasSwitch(t);
    if 0 <= t < |SWITCHES| { SwitchOf(settings, SWITCHES[t]); }
  }

  lemma TypeHasSwitch(t: int)
    ensures TypeSetting(t) == if 0 <= t < |SWITCHES| then Some(SWITCHES[t]) else None
    ensures 0 <= t < |SWITCHES| ==> SWITCHES[t] in DEFAULTS && !IsNumberKey(SWITCHES[t])
  {
  }

  lemma SwitchOf(settings: Settings, name: string)
    requires WellFormed(settings) && name in DEFAULTS && !IsNumberKey(name)
    ensures name in settings && Lookup(settings, name) == Some(settings[name])
    ensures settings[name] == "true" || settings[name] == "false"
  {
    assert name in settings.Keys;
  }

  /**
   * In every reachable settings state the limit in bytes fits u64, and a file or image paste that passes the
   * gate with the limit on gets a push session of at most `max_file_size_mb`, so at most 102400, chunks.
   */
  lemma SizeLimitBoundsSession(ops: seq<Op>, r: Relay, client: ClientId, paired: bool, paste: Paste,
                               now: int, token: string, diskOk: bool)
    ensures
      var settings := Run(ops).settings;
      && MaxMb(settings) * 1024 * 1024 < U64_LIMIT
      && 1 <= MaxMb(settings) <= 102_400
      && (PasteTypeOf(paste) in {3, 4} && LimitIsOn(settings) && EnforceSyncSettings(settings, paste).Ok? ==>
            match Prepare(r, client, paired, paste, now, token, diskOk).1
            case Err(_) => true
            case Ok(response) => response.chunkCount <= MaxMb(settings))
  {
    LogIsEndOfHistory(ops);
    WellFormedLimit(Run(ops).settings);
    if PasteTypeOf(paste) in {3, 4} && LimitIsOn(Run(ops).settings) && !TooBig(Run(ops).settings, paste) {
      GateBoundsSession(Run(ops).settings, r, client, paired, paste, now, token, diskOk);
    }
  }

  lemma WellFormedLimit(settings: Settings)
    requires WellFormed(settings)
    ensures 1 <= MaxMb(settings) <= 102_400
  {
  }

  lemma GateBoundsSession(settings: Settings, r: Relay, client: ClientId, paired: bool, paste: Paste,
                          now: int, token: string, diskOk: bool)
    requires PasteTypeOf(paste) in {3, 4} && LimitIsOn(settings) && !TooBig(settings, paste)
    ensures
      match Prepare(r, client, paired, paste, now, token, diskOk).1
      case Err(_) => true
      case Ok(response) => response.chunkCount <= MaxMb(settings)
  {
    TooBigIsTooManyChunks(settings, paste);
  }

  /** The relay and the switch of this type are on. */
  predicate TypeIsOn(settings: Settings, t: int) {
    && Lookup(settings, "clipboard_relay") == Some("true")
    && 0 <= t < |SWITCHES| && Lookup(settings, SWITCHES[t]) == Some("true")
  }

  predicate TypeIsLimited(settings: Settings, t: int) {
    t in {3, 4} && LimitIsOn(settings)
  }

  /** A paste of this type, one byte over the limit. */
  function OneByteOver(settings: Settings, t: int): Paste {
    Paste(None, Some(t), Some(MaxMb(settings) * FILE_CHUNK_SIZE + 1), "")
  }

  lemma OneByteOverHasOneMoreChunk(settings: Settings, t: int)
    requires WellFormed(settings) && 0 <= t < |SWITCHES|
    ensures PasteTypeOf(OneByteOver(settings, t)) == t
    ensures AsU64(OneByteOver(settings, t).size) == Some(MaxMb(settings) * FILE_CHUNK_SIZE + 1)
    ensures ChunksOf(OneByteOver(settings, t)) == MaxMb(settings) + 1
  {
    WellFormedLimit(settings);
    var m := MaxMb(settings);
    DivUnique(m * FILE_CHUNK_SIZE + 1, FILE_CHUNK_SIZE, m, 1);
  }

  /**
   * The gate looks at the size of types 3 and 4 only, and only while the limit is on.  In any other case a paste of
   * one byte over the limit passes, and a push of it opens a session of one chunk more than `max_file_size_mb`.
   */
  lemma OtherTypesAreNotLimited(settings: Settings, t: int, r: Relay, client: ClientId, now: int, token: string)
    requires WellFormed(settings) && TypeIsOn(settings, t) && !TypeIsLimited(settings, t)
    ensures
      var paste := OneByteOver(settings, t);
      && EnforceSyncSettings(settings, paste).Ok?
      && Prepare(r, client, true, paste, now, token, true).1 ==
         Ok(PrepareResponse(now, MaxMb(settings) + 1, FILE_CHUNK_SIZE, token))
  {
    OneByteOverHasOneMoreChunk(settings, t);
    GateOfWellFormed(settings, OneByteOver(settings, t));
    SwitchOf(settings, "limit_file_size");
  }

  ghost predicate PassesWithinLimit(settings: Settings, t: int, paste: Paste) {
    PasteTypeOf(paste) == t && EnforceSyncSettings(settings, paste).Ok? ==> ChunksOf(paste) <= MaxMb(settings)
  }

  /**
   * For a type that is on: every paste that is let through takes at most `max_file_size_mb` chunks, if and only if the
   * type is limited.
   */
  lemma LimitHoldsExactly(settings: Settings, t: int)
    requires WellFormed(settings) && TypeIsOn(settings, t)
    ensures (forall paste :: PassesWithinLimit(settings, t, paste)) <==> TypeIsLimited(settings, t)
  {
    if TypeIsLimited(settings, t) {
      forall paste ensures PassesWithinLimit(settings, t, paste) {
        TooBigIsTooManyChunks(settings, paste);
      }
    } else {
      OneByteOverHasOneMoreChunk(settings, t);
      OtherTypesAreNotLimited(settings, t, Relay(map[], map[], map[], map[]), "", 0, "");
      assert !PassesWithinLimit(settings, t, OneByteOver(settings, t));
    }
  }
}
