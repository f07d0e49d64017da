/**
 * Pairing as a state machine on values: the pairing token of v1, the pending key exchanges of v2, the three
 * in-memory maps of paired clients, and the table paired_clients they are rebuilt from at start-up.
 */
module PairingSpec {
  import opened Prelude

  const PAIRING_TOKEN_TTL_MS: nat := 30_000

  /** The parts of a client's SyncInfo that the server uses, and the rest of the document. */
  datatype SyncInfo = SyncInfo(hostAddresses: seq<string>, port: int, rest: string)

  datatype TrustRequest = TrustRequest(
    signPublicKey: string, cryptPublicKey: string, token: nat, timestamp: int, signature: string)

  datatype KeyExchangeRequest = KeyExchangeRequest(
    signPublicKey: string, cryptPublicKey: string, timestamp: int, signature: string)

  datatype TrustConfirmRequest = TrustConfirmRequest(timestamp: int, signature: string)

  /**
   * Signature verification (an error and a mismatch are both a refusal), the decoding of base64 keys, the short
   * authentication string of a client's key and the server's, and the JSON engine.  Only the law of the JSON engine
   * is used.
   */
  datatype Env = Env(
    pairing: TrustRequest -> bool,
    exchange: KeyExchangeRequest -> bool,
    confirm: (string, TrustConfirmRequest) -> bool,
    decodeKey: string -> Option<Bytes>,
    sas: Bytes -> nat,
    json: Json<SyncInfo>)

  datatype PairingToken = PairingToken(value: nat, expiresAtMs: int, clientId: Option<ClientId>)

  datatype Pending = Pending(signPublicKey: string, cryptPublicKey: Bytes, sas: nat, expiresAtMs: int)

  datatype PairedClient = PairedClient(appInstanceId: ClientId, pairedAtMs: int)

  datatype ClientRow = ClientRow(
    pairedAtMs: int, cryptPublicKey: Bytes, syncInfoJson: Option<Bytes>, lastSeenMs: Option<int>, enabled: bool)

  type ClientTable = map<ClientId, ClientRow>

  datatype Pairing = Pairing(
    token: PairingToken,
    clients: map<ClientId, PairedClient>,
    keys: map<ClientId, Bytes>,
    pending: map<ClientId, Pending>,
    infos: map<ClientId, SyncInfo>,
    table: ClientTable)

  datatype PairingError =
    | InvalidSignature | TokenNotRequested | TokenExpired | TokenMismatch | MalformedKey
    | ExchangeNotFound | ExchangeExpired | NotPaired | DatabaseFailure

  const NO_TOKEN: PairingToken := PairingToken(0, 0, None)

  // ---------- Table statements ----------

  /** Insert, or on conflict update everything except the SyncInfo and the last-seen time. */
  function UpsertClient(t: ClientTable, id: ClientId, pairedAtMs: int, key: Bytes): ClientTable {
    t[id := if id in t then t[id].(pairedAtMs := pairedAtMs, cryptPublicKey := key, enabled := true)
            else ClientRow(pairedAtMs, key, None, None, true)]
  }

  function SetSyncInfo(t: ClientTable, id: ClientId, json: Bytes, lastSeenMs: int): ClientTable {
    if id in t then t[id := t[id].(syncInfoJson := Some(json), lastSeenMs := Some(lastSeenMs))] else t
  }

  function SetLastSeen(t: ClientTable, id: ClientId, lastSeenMs: int): ClientTable {
    if id in t then t[id := t[id].(lastSeenMs := Some(lastSeenMs))] else t
  }

  // ---------- Hub calls ----------

  function SetToken(s: Pairing, value: nat, clientId: Option<ClientId>, now: int): Pairing {
    s.(token := PairingToken(value, now + PAIRING_TOKEN_TTL_MS, clientId))
  }

  /** What both pairing protocols do once the checks are passed: memory first, then the table. */
  function Admit(s: Pairing, id: ClientId, key: Bytes, now: int, dbOk: bool): Pairing {
    var inMemory := s.(keys := s.keys[id := key], clients := s.clients[id := PairedClient(id, now)]);
    if dbOk then inMemory.(table := UpsertClient(s.table, id, now, key)) else inMemory
  }

  function Written(dbOk: bool): Result<(), PairingError> {
    if dbOk then Ok(()) else Err(DatabaseFailure)
  }

  /** The checks of v1 trust, in order; on success the client's encryption key. */
  function CheckTrust(env: Env, s: Pairing, req: TrustRequest, now: int): Result<Bytes, PairingError> {
    if !env.pairing(req) then Err(InvalidSignature)
    else if s.token.value == 0 then Err(TokenNotRequested)
    else if s.token.expiresAtMs < now then Err(TokenExpired)
    else if req.token != s.token.value then Err(TokenMismatch)
    else
      match env.decodeKey(req.cryptPublicKey)
      case None => Err(MalformedKey)
      case Some(key) => Ok(key)
  }

  function TrustV1(env: Env, s: Pairing, id: ClientId, req: TrustRequest, now: int, dbOk: bool)
    : (Pairing, Result<(), PairingError>)
  {
    match CheckTrust(env, s, req, now)
    case Err(e) => (s, Err(e))
    case Ok(key) => (Admit(s, id, key, now, dbOk), Written(dbOk))
  }

  function ExchangeV2(env: Env, s: Pairing, id: ClientId, req: KeyExchangeRequest, now: int)
    : (Pairing, Result<nat, PairingError>)
  {
    if !env.exchange(req) then (s, Err(InvalidSignature))
    else
      match env.decodeKey(req.cryptPublicKey)
      case None => (s, Err(MalformedKey))
      case Some(key) =>
        var entry := Pending(req.signPublicKey, key, env.sas(key), now + PAIRING_TOKEN_TTL_MS);
        (s.(pending := s.pending[id := entry]), Ok(entry.sas))
  }

  function CheckConfirm(env: Env, s: Pairing, id: ClientId, req: TrustConfirmRequest, now: int)
    : Result<Bytes, PairingError>
  {
    if id !in s.pending then Err(ExchangeNotFound)
    else if s.pending[id].expiresAtMs < now then Err(ExchangeExpired)
    else if !env.confirm(s.pending[id].signPublicKey, req) then Err(InvalidSignature)
    else Ok(s.pending[id].cryptPublicKey)
  }

  function ConfirmV2(env: Env, s: Pairing, id: ClientId, req: TrustConfirmRequest, now: int, dbOk: bool)
    : (Pairing, Result<(), PairingError>)
  {
    match CheckConfirm(env, s, id, req, now)
    case Err(e) => (s, Err(e))
    case Ok(key) => (Admit(s.(pending := s.pending - {id}), id, key, now, dbOk), Written(dbOk))
  }

  /** Here the table comes first: when the statement fails, memory is not touched. */
  function UpdateSyncInfo(env: Env, s: Pairing, id: ClientId, info: SyncInfo, now: int, dbOk: bool)
    : (Pairing, Result<(), PairingError>)
  {
    if id !in s.clients then (s, Err(NotPaired))
    else if !dbOk then (s, Err(DatabaseFailure))
    else (s.(table := SetSyncInfo(s.table, id, env.json.encode(info), now), infos := s.infos[id := info]), Ok(()))
  }

  function Touch(s: Pairing, id: ClientId, now: int, dbOk: bool): Pairing {
    if dbOk then s.(table := SetLastSeen(s.table, id, now)) else s
  }

  function Remove(s: Pairing, id: ClientId, dbOk: bool): (Pairing, Result<(), PairingError>) {
    var forgotten := s.(clients := s.clients - {id}, keys := s.keys - {id}, infos := s.infos - {id});
    (if dbOk then forgotten.(table := s.table - {id}) else forgotten, Written(dbOk))
  }

  /** The SyncInfo a row restores, if it has one that parses. */
  function StoredInfo(env: Env, row: ClientRow): Option<SyncInfo> {
    match row.syncInfoJson
    case None => None
    case Some(json) => env.json.decode(json)
  }

  function ClientsOf(t: ClientTable): map<ClientId, PairedClient> {
    map id | id in t && t[id].enabled :: PairedClient(id, t[id].pairedAtMs)
  }

  function KeysOf(t: ClientTable): map<ClientId, Bytes> {
    map id | id in t && t[id].enabled :: t[id].cryptPublicKey
  }

  predicate RestoresInfo(env: Env, row: ClientRow) {
    row.enabled && StoredInfo(env, row).Some?
  }

  function InfosOf(env: Env, t: ClientTable): map<ClientId, SyncInfo> {
    map id | id in t && RestoresInfo(env, t[id]) :: StoredInfo(env, t[id]).value
  }

  /** `load_or_create` over an existing table. */
  function Rebuild(env: Env, t: ClientTable): Pairing {
    Pairing(NO_TOKEN, ClientsOf(t), KeysOf(t), map[], InfosOf(env, t), t)
  }

  /** Reading one more row of the table adds at most that client. */
  lemma RebuildAddsRow(env: Env, t: ClientTable, id: ClientId, row: ClientRow)
    requires id !in t
    ensures ClientsOf(t[id := row]) ==
            if row.enabled then ClientsOf(t)[id := PairedClient(id, row.pairedAtMs)] else ClientsOf(t)
    ensures KeysOf(t[id := row]) == if row.enabled then KeysOf(t)[id := row.cryptPublicKey] else KeysOf(t)
    ensures InfosOf(env, t[id := row]) ==
            if RestoresInfo(env, row) then InfosOf(env, t)[id := StoredInfo(env, row).value] else InfosOf(env, t)
  {
    ClientsAddRow(t, id, row);
    KeysAddRow(t, id, row);
    InfosAddRow(env, t, id, row);
  }

  lemma ClientsAddRow(t: ClientTable, id: ClientId, row: ClientRow)
    requires id !in t
    ensures ClientsOf(t[id := row]) ==
            if row.enabled then ClientsOf(t)[id := PairedClient(id, row.pairedAtMs)] else ClientsOf(t)
  {
  }

  lemma KeysAddRow(t: ClientTable, id: ClientId, row: ClientRow)
    requires id !in t
    ensures KeysOf(t[id := row]) == if row.enabled then KeysOf(t)[id := row.cryptPublicKey] else KeysOf(t)
  {
  }

  lemma InfosAddRow(env: Env, t: ClientTable, id: ClientId, row: ClientRow)
    requires id !in t
    ensures InfosOf(env, t[id := row]) ==
            if RestoresInfo(env, row) then InfosOf(env, t)[id := StoredInfo(env, row).value] else InfosOf(env, t)
  {
  }
}
