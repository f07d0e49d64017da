/** Whole runs of the pairing state machine: restart transparency, and where every stored key came from. */
module PairingRuns {
  import opened Prelude
  import opened PairingSpec

  datatype Op =
    | TokenOp(value: nat, forClient: Option<ClientId>, now: int)
    | TrustOp(id: ClientId, trust: TrustRequest, now: int, dbOk: bool)
    | ExchangeOp(id: ClientId, exchange: KeyExchangeRequest, now: int)
    | ConfirmOp(id: ClientId, confirm: TrustConfirmRequest, now: int, dbOk: bool)
    | SyncInfoOp(id: ClientId, info: SyncInfo, now: int, dbOk: bool)
    | TouchOp(id: ClientId, now: int, dbOk: bool)
    | RemoveOp(id: ClientId, dbOk: bool)
    | RestartOp

  const EMPTY: Pairing := Pairing(NO_TOKEN, map[], map[], map[], map[], map[])

  function Step(env: Env, s: Pairing, op: Op): Pairing {
    match op
    case TokenOp(value, forClient, now) => SetToken(s, value, forClient, now)
    case TrustOp(id, req, now, dbOk) => TrustV1(env, s, id, req, now, dbOk).0
    case ExchangeOp(id, req, now) => ExchangeV2(env, s, id, req, now).0
    case ConfirmOp(id, req, now, dbOk) => ConfirmV2(env, s, id, req, now, dbOk).0
    case SyncInfoOp(id, info, now, dbOk) => UpdateSyncInfo(env, s, id, info, now, dbOk).0
    case TouchOp(id, now, dbOk) => Touch(s, id, now, dbOk)
    case RemoveOp(id, dbOk) => Remove(s, id, dbOk).0
    case RestartOp => Rebuild(env, s.table)
  }

  /** Runs start from an empty database. */
  function Run(env: Env, ops: seq<Op>): Pairing {
    if ops == [] then EMPTY else Step(env, Run(env, ops[..|ops| - 1]), ops[|ops| - 1])
  }

  // ---------- Memory is a cache of the table ----------

  /** Memory and table tell the same about this client.  No statement of the server ever disables a row. */
  ghost predicate Agrees(env: Env, s: Pairing, id: ClientId) {
    if id in s.table then
      && s.table[id].enabled
      && Lookup(s.clients, id) == Some(PairedClient(id, s.table[id].pairedAtMs))
      && Lookup(s.keys, id) == Some(s.table[id].cryptPublicKey)
      && Lookup(s.infos, id) == StoredInfo(env, s.table[id])
    else
      id !in s.clients && id !in s.keys && id !in s.infos
  }

  /** The part of the state that a restart is supposed to keep. */
  predicate SameClients(s: Pairing, s': Pairing) {
    s.clients == s'.clients && s.keys == s'.keys && s.infos == s'.infos && s.table == s'.table
  }

  /** No statement about this client failed.  Failures for other clients are allowed. */
  predicate Healthy(op: Op, id: ClientId) {
    match op
    case TrustOp(i, _, _, dbOk) => i == id ==> dbOk
    case ConfirmOp(i, _, _, dbOk) => i == id ==> dbOk
    case RemoveOp(i, dbOk) => i == id ==> dbOk
    case _ => true
  }

  predicate AllEnabled(t: ClientTable) {
    forall id <- t :: t[id].enabled
  }

  /** A restart changes nothing exactly when memory and table agree on every client. */
  lemma TransparentExactlyWhenAgreeing(env: Env, s: Pairing)
    requires AllEnabled(s.table)
    ensures SameClients(s, Rebuild(env, s.table)) <==> forall id :: Agrees(env, s, id)
  {
    var s' := Rebuild(env, s.table);
    if forall id :: Agrees(env, s, id) {
      forall id ensures Lookup(s.clients, id) == Lookup(s'.clients, id)
                        && Lookup(s.keys, id) == Lookup(s'.keys, id)
                        && Lookup(s.infos, id) == Lookup(s'.infos, id)
      {
        assert Agrees(env, s, id);
      }
      SameLookupsSameMap(s.clients, s'.clients);
      SameLookupsSameMap(s.keys, s'.keys);
      SameLookupsSameMap(s.infos, s'.infos);
    }
  }

  lemma SameLookupsSameMap<K(!new), V>(m: map<K, V>, n: map<K, V>)
    requires forall k :: Lookup(m, k) == Lookup(n, k)
    ensures m == n
  {
    forall k ensures k in m <==> k in n {
      assert Lookup(m, k) == Lookup(n, k);
    }
    forall k | k in m ensures m[k] == n[k] {
      assert Lookup(m, k) == Lookup(n, k);
    }
  }

  lemma AdmitKeepsAgreement(env: Env, s: Pairing, who: ClientId, key: Bytes, now: int, dbOk: bool, id: ClientId)
    requires Agrees(env, s, id) && (who == id ==> dbOk)
    ensures Agrees(env, Admit(s, who, key, now, dbOk), id)
  {
  }

  lemma SyncInfoKeepsAgreement(env: Env, s: Pairing, who: ClientId, info: SyncInfo, now: int, dbOk: bool, id: ClientId)
    requires Lawful(env.json) && Agrees(env, s, id)
    ensures Agrees(env, UpdateSyncInfo(env, s, who, info, now, dbOk).0, id)
  {
    assert env.json.decode(env.json.encode(info)) == Some(info);
  }

  lemma StepKeepsAgreement(env: Env, s: Pairing, op: Op, id: ClientId)
    requires Lawful(env.json) && Agrees(env, s, id) && Healthy(op, id)
    ensures Agrees(env, Step(env, s, op), id)
  {
    match op
    case TrustOp(who, req, now, dbOk) =>
      match CheckTrust(env, s, req, now) {
        case Ok(key) => AdmitKeepsAgreement(env, s, who, key, now, dbOk, id);
        case Err(_) =>
      }
    case ConfirmOp(who, req, now, dbOk) =>
      match CheckConfirm(env, s, who, req, now) {
        case Ok(key) => AdmitKeepsAgreement(env, s.(pending := s.pending - {who}), who, key, now, dbOk, id);
        case Err(_) =>
      }
    case SyncInfoOp(who, info, now, dbOk) =>
      SyncInfoKeepsAgreement(env, s, who, info, now, dbOk, id);
    case RestartOp =>
      RebuiltAgrees(env, s.table, id);
    case _ =>
  }

  lemma RebuiltAgrees(env: Env, t: ClientTable, id: ClientId)
    requires id in t ==> t[id].enabled
    ensures Agrees(env, Rebuild(env, t), id)
  {
    var s := Rebuild(env, t);
    assert id in s.infos <==> id in t && RestoresInfo(env, t[id]);
  }

  /**
   * A client whose own statements all succeeded agrees with its row after every run, including re-pairing,
   * where the row keeps its SyncInfo; database failures for other clients do not matter.
   */
  lemma {:induction false} HealthyClientAgrees(env: Env, ops: seq<Op>, id: ClientId)
    requires Lawful(env.json)
    requires forall op <- ops :: Healthy(op, id)
    ensures Agrees(env, Run(env, ops), id)
    decreases |ops|
  {
    if ops != [] {
      assert ops[|ops| - 1] in ops;
      HealthyClientAgrees(env, ops[..|ops| - 1], id);
      StepKeepsAgreement(env, Run(env, ops[..|ops| - 1]), ops[|ops| - 1], id);
    }
  }

  /** Restart transparency: when database calls succeed, rebuilding from the table gives the live maps back. */
  lemma RestartIsTransparent(env: Env, ops: seq<Op>)
    requires Lawful(env.json)
    requires forall op <- ops, id :: Healthy(op, id)
    ensures SameClients(Run(env, ops), Run(env, ops + [RestartOp]))
  {
    forall id ensures Agrees(env, Run(env, ops), id) {
      HealthyClientAgrees(env, ops, id);
    }
    assert forall id <- Run(env, ops).table :: Agrees(env, Run(env, ops), id);
    TransparentExactlyWhenAgreeing(env, Run(env, ops));
    assert (ops + [RestartOp])[..|ops|] == ops;
  }

  /**
   * What a failed statement costs.  Pairing and removal change memory before the table, so after a failure
   * they agree only if the table already said the same; a failed SyncInfo update costs nothing.
   */
  lemma AgreementAfterFailure(env: Env, s: Pairing, id: ClientId, key: Bytes, info: SyncInfo, now: int)
    ensures Agrees(env, Admit(s, id, key, now, false), id) <==>
            && id in s.table && s.table[id].enabled
            && s.table[id].pairedAtMs == now && s.table[id].cryptPublicKey == key
            && Lookup(s.infos, id) == StoredInfo(env, s.table[id])
    ensures Agrees(env, Remove(s, id, false).0, id) <==> id !in s.table
    ensures UpdateSyncInfo(env, s, id, info, now, false).0 == s
  {
  }

  ghost predicate DomainsMatch(s: Pairing) {
    && s.clients.Keys == s.keys.Keys
    && s.infos.Keys <= s.clients.Keys
    && forall id <- s.clients :: s.clients[id].appInstanceId == id
  }

  lemma StepKeepsDomains(env: Env, s: Pairing, op: Op)
    requires DomainsMatch(s)
    ensures DomainsMatch(Step(env, s, op))
  {
    match op
    case RestartOp =>
      var s' := Rebuild(env, s.table);
      assert s'.clients.Keys == s'.keys.Keys;
    case RemoveOp(id, dbOk) =>
      assert (s.clients - {id}).Keys == s.clients.Keys - {id};
      assert (s.keys - {id}).Keys == s.keys.Keys - {id};
      assert (s.infos - {id}).Keys == s.infos.Keys - {id};
    case _ =>
  }

  /** In every run, whatever fails: clients and keys have the same domain, and SyncInfo is known only for clients. */
  lemma {:induction false} DomainsAlwaysMatch(env: Env, ops: seq<Op>)
    ensures DomainsMatch(Run(env, ops))
    decreases |ops|
  {
    if ops != [] {
      DomainsAlwaysMatch(env, ops[..|ops| - 1]);
      StepKeepsDomains(env, Run(env, ops[..|ops| - 1]), ops[|ops| - 1]);
    }
  }

  // ---------- Provenance ----------

  predicate TrustTakesEffect(env: Env, s: Pairing, op: Op) {
    op.TrustOp? && CheckTrust(env, s, op.trust, op.now).Ok?
  }

  predicate ExchangeTakesEffect(env: Env, op: Op) {
    op.ExchangeOp? && env.exchange(op.exchange) && env.decodeKey(op.exchange.cryptPublicKey).Some?
  }

  predicate ConfirmTakesEffect(env: Env, s: Pairing, op: Op) {
    op.ConfirmOp? && CheckConfirm(env, s, op.id, op.confirm, op.now).Ok?
  }

  /** Position of the client's latest verified exchange that is not yet used up by a confirm or lost in a restart. */
  function OpenExchange(env: Env, ops: seq<Op>, id: ClientId): (r: Option<nat>)
    ensures r.Some? ==> r.value < |ops| && ops[r.value].ExchangeOp? && ops[r.value].id == id
  {
    if ops == [] then None
    else
      var before, op := ops[..|ops| - 1], ops[|ops| - 1];
      if ExchangeTakesEffect(env, op) && op.id == id then Some(|before|)
      else if ConfirmTakesEffect(env, Run(env, before), op) && op.id == id then None
      else if op.RestartOp? then None
      else OpenExchange(env, before, id)
  }

  /** The key and time that a step pairs this client with, by either protocol, if it does. */
  function PairedBy(env: Env, before: seq<Op>, op: Op, id: ClientId): (r: Option<(Bytes, int)>)
    ensures r.Some? ==> op.TrustOp? || op.ConfirmOp?
  {
    if TrustTakesEffect(env, Run(env, before), op) && op.id == id then
      match env.decodeKey(op.trust.cryptPublicKey)
      case Some(key) => Some((key, op.now))
      case None => None
    else if ConfirmTakesEffect(env, Run(env, before), op) && op.id == id then
      match OpenExchange(env, before, id)
      case None => None
      case Some(e) =>
        match env.decodeKey(before[e].exchange.cryptPublicKey)
        case Some(key) => Some((key, op.now))
        case None => None
    else None
  }

  predicate Removes(op: Op, id: ClientId) {
    op.RemoveOp? && op.id == id
  }

  /** The latest pairing of this client since its last removal, whatever became of the statements. */
  function LatestPairing(env: Env, ops: seq<Op>, id: ClientId): Option<(Bytes, int)> {
    if ops == [] then None
    else
      var before, op := ops[..|ops| - 1], ops[|ops| - 1];
      if PairedBy(env, before, op, id).Some? then PairedBy(env, before, op, id)
      else if Removes(op, id) then None
      else LatestPairing(env, before, id)
  }

  /** The latest pairing that was saved, since the last removal that was. */
  function Saved(env: Env, ops: seq<Op>, id: ClientId): Option<(Bytes, int)> {
    if ops == [] then None
    else
      var before, op := ops[..|ops| - 1], ops[|ops| - 1];
      if PairedBy(env, before, op, id).Some? && op.dbOk then PairedBy(env, before, op, id)
      else if Removes(op, id) && op.dbOk then None
      else Saved(env, before, id)
  }

  /** What the process holds: it follows every pairing and removal, saved or not, and starts from what was saved. */
  function Held(env: Env, ops: seq<Op>, id: ClientId): Option<(Bytes, int)> {
    if ops == [] then None
    else
      var before, op := ops[..|ops| - 1], ops[|ops| - 1];
      if PairedBy(env, before, op, id).Some? then PairedBy(env, before, op, id)
      else if Removes(op, id) then None
      else if op.RestartOp? then Saved(env, before, id)
      else Held(env, before, id)
  }

  predicate TellsOf(env: Env, ops: seq<Op>, op: Op, id: ClientId) {
    op.SyncInfoOp? && op.id == id && op.dbOk && Held(env, ops, id).Some?
  }

  /** The latest SyncInfo that was saved for a client with a row, since its row was last deleted. */
  function SavedInfo(env: Env, ops: seq<Op>, id: ClientId): Option<SyncInfo> {
    if ops == [] then None
    else
      var before, op := ops[..|ops| - 1], ops[|ops| - 1];
      if TellsOf(env, before, op, id) && Saved(env, before, id).Some? then Some(op.info)
      else if Removes(op, id) && op.dbOk then None
      else SavedInfo(env, before, id)
  }

  /** The SyncInfo that the process holds. */
  function HeldInfo(env: Env, ops: seq<Op>, id: ClientId): Option<SyncInfo> {
    if ops == [] then None
    else
      var before, op := ops[..|ops| - 1], ops[|ops| - 1];
      if TellsOf(env, before, op, id) then Some(op.info)
      else if Removes(op, id) then None
      else if op.RestartOp? then SavedInfo(env, before, id)
      else HeldInfo(env, before, id)
  }

  /** One step, seen from a client's pending entry. */
  lemma PendingStep(env: Env, s: Pairing, op: Op, id: ClientId)
    ensures Lookup(Step(env, s, op).pending, id) ==
            if ExchangeTakesEffect(env, op) && op.id == id then
              var key := env.decodeKey(op.exchange.cryptPublicKey).value;
              Some(Pending(op.exchange.signPublicKey, key, env.sas(key), op.now + PAIRING_TOKEN_TTL_MS))
            else if (ConfirmTakesEffect(env, s, op) && op.id == id) || op.RestartOp? then None
            else Lookup(s.pending, id)
  {
  }

  /** In every run, the pending entry of a client is exactly its open exchange, with 30 seconds to live. */
  lemma {:induction false} PendingIsOpenExchange(env: Env, ops: seq<Op>, id: ClientId)
    ensures
      match OpenExchange(env, ops, id)
      case None => id !in Run(env, ops).pending
      case Some(e) =>
        && ExchangeTakesEffect(env, ops[e])
        && Lookup(Run(env, ops).pending, id) ==
           var key := env.decodeKey(ops[e].exchange.cryptPublicKey).value;
           Some(Pending(ops[e].exchange.signPublicKey, key, env.sas(key), ops[e].now + PAIRING_TOKEN_TTL_MS))
    decreases |ops|
  {
    if ops != [] {
      var before, op := ops[..|ops| - 1], ops[|ops| - 1];
      PendingIsOpenExchange(env, before, id);
      PendingStep(env, Run(env, before), op, id);
    }
  }

  /** What memory says of a client's pairing. */
  ghost predicate MemoryHolds(s: Pairing, id: ClientId, pairing: Option<(Bytes, int)>) {
    match pairing
    case None => id !in s.keys && id !in s.clients
    case Some((key, at)) => Lookup(s.keys, id) == Some(key) && Lookup(s.clients, id) == Some(PairedClient(id, at))
  }

  /** What the table says of it. */
  ghost predicate TableHolds(s: Pairing, id: ClientId, pairing: Option<(Bytes, int)>) {
    match pairing
    case None => id !in s.table
    case Some((key, at)) =>
      id in s.table && s.table[id].enabled && s.table[id].cryptPublicKey == key && s.table[id].pairedAtMs == at
  }

  /** The step does not pair this client. */
  ghost predicate PairsNot(env: Env, s: Pairing, op: Op, id: ClientId) {
    !(TrustTakesEffect(env, s, op) && op.id == id) && !(ConfirmTakesEffect(env, s, op) && op.id == id)
  }

  lemma PairedByIsAdmitted(env: Env, before: seq<Op>, op: Op, id: ClientId)
    ensures
      var s, s' := Run(env, before), Step(env, Run(env, before), op);
      match PairedBy(env, before, op, id)
      case Some((key, at)) =>
        && s'.keys == s.keys[id := key] && s'.clients == s.clients[id := PairedClient(id, at)] && s'.infos == s.infos
        && s'.table == if op.dbOk then UpsertClient(s.table, id, at, key) else s.table
      case None => PairsNot(env, s, op, id)
  {
    PendingIsOpenExchange(env, before, id);
  }

  /** A pairing call that does not take effect changes nothing; one that does changes its own client only. */
  lemma PairingStepOfOthers(env: Env, s: Pairing, op: Op, id: ClientId)
    requires PairsNot(env, s, op, id) && (op.TrustOp? || op.ConfirmOp?)
    ensures
      var s' := Step(env, s, op);
      Lookup(s'.keys, id) == Lookup(s.keys, id) && Lookup(s'.clients, id) == Lookup(s.clients, id)
  {
  }

  lemma OtherStepInMemory(env: Env, s: Pairing, op: Op, id: ClientId)
    requires PairsNot(env, s, op, id) && !op.RestartOp?
    ensures
      var s' := Step(env, s, op);
      if Removes(op, id) then id !in s'.keys && id !in s'.clients
      else Lookup(s'.keys, id) == Lookup(s.keys, id) && Lookup(s'.clients, id) == Lookup(s.clients, id)
  {
    if op.TrustOp? || op.ConfirmOp? {
      PairingStepOfOthers(env, s, op, id);
    }
  }

  lemma OtherStepInTable(env: Env, s: Pairing, op: Op, id: ClientId)
    requires PairsNot(env, s, op, id)
    ensures
      var t, t' := s.table, Step(env, s, op).table;
      && (id in t' <==> id in t && !(Removes(op, id) && op.dbOk))
      && (id in t' ==>
            && t'[id].enabled == t[id].enabled
            && t'[id].cryptPublicKey == t[id].cryptPublicKey
            && t'[id].pairedAtMs == t[id].pairedAtMs)
  {
  }

  /**
   * Whatever fails: in every run memory has the key and time of the client's latest pairing since its last removal,
   * except that a restart goes back to what was saved; and the row has what was saved.
   */
  lemma {:induction false} KeysAreHeldAndSaved(env: Env, ops: seq<Op>, id: ClientId)
    ensures MemoryHolds(Run(env, ops), id, Held(env, ops, id))
    ensures TableHolds(Run(env, ops), id, Saved(env, ops, id))
    decreases |ops|
  {
    if ops != [] {
      var before, op := ops[..|ops| - 1], ops[|ops| - 1];
      KeysAreHeldAndSaved(env, before, id);
      PairedByIsAdmitted(env, before, op, id);
      if PairedBy(env, before, op, id).None? {
        OtherStepInTable(env, Run(env, before), op, id);
        if !op.RestartOp? {
          OtherStepInMemory(env, Run(env, before), op, id);
        }
      }
    }
  }

  /** The SyncInfo that a row restores, if there is a row. */
  function RowInfo(env: Env, t: ClientTable, id: ClientId): Option<SyncInfo> {
    if id in t then StoredInfo(env, t[id]) else None
  }

  /** One step, seen from a client's SyncInfo in memory and in its row. */
  lemma InfoStep(env: Env, s: Pairing, op: Op, id: ClientId)
    requires Lawful(env.json)
    ensures
      var s' := Step(env, s, op);
      var told := op.SyncInfoOp? && op.id == id && op.dbOk && id in s.clients;
      && (!op.RestartOp? ==>
            Lookup(s'.infos, id) ==
            if told then Some(op.info) else if Removes(op, id) then None else Lookup(s.infos, id))
      && RowInfo(env, s'.table, id) ==
         if told && id in s.table then Some(op.info)
         else if Removes(op, id) && op.dbOk then None
         else RowInfo(env, s.table, id)
  {
    if op.SyncInfoOp? {
      assert env.json.decode(env.json.encode(op.info)) == Some(op.info);
    }
  }

  /** The same for SyncInfo, which re-pairing leaves alone and which a client without a row loses at a restart. */
  lemma {:induction false} InfosAreHeldAndSaved(env: Env, ops: seq<Op>, id: ClientId)
    requires Lawful(env.json)
    ensures Lookup(Run(env, ops).infos, id) == HeldInfo(env, ops, id)
    ensures RowInfo(env, Run(env, ops).table, id) == SavedInfo(env, ops, id)
    decreases |ops|
  {
    if ops != [] {
      var before, op := ops[..|ops| - 1], ops[|ops| - 1];
      InfosAreHeldAndSaved(env, before, id);
      KeysAreHeldAndSaved(env, before, id);
      InfoStep(env, Run(env, before), op, id);
      if op.RestartOp? {
        assert id in InfosOf(env, Run(env, before).table) <==> RowInfo(env, Run(env, before).table, id).Some?;
      }
    }
  }

  lemma AfterRestart(env: Env, ops: seq<Op>)
    ensures Run(env, ops + [RestartOp]) == Rebuild(env, Run(env, ops).table)
    ensures forall id :: Held(env, ops + [RestartOp], id) == Saved(env, ops, id)
    ensures forall id :: HeldInfo(env, ops + [RestartOp], id) == SavedInfo(env, ops, id)
  {
    assert (ops + [RestartOp])[..|ops|] == ops;
  }

  /** What the process holds of a client's pairing, or its absence, is what was saved. */
  predicate PairingIsSaved(env: Env, ops: seq<Op>, id: ClientId) {
    Held(env, ops, id) == Saved(env, ops, id)
  }

  predicate InfoIsSaved(env: Env, ops: seq<Op>, id: ClientId) {
    HeldInfo(env, ops, id) == SavedInfo(env, ops, id)
  }

  lemma RestartOfOne(env: Env, ops: seq<Op>, id: ClientId)
    ensures
      var s, s' := Run(env, ops), Run(env, ops + [RestartOp]);
      && (PairingIsSaved(env, ops, id) <==>
            Lookup(s.clients, id) == Lookup(s'.clients, id) && Lookup(s.keys, id) == Lookup(s'.keys, id))
      && (Lawful(env.json) ==>
            (InfoIsSaved(env, ops, id) <==> Lookup(s.infos, id) == Lookup(s'.infos, id)))
  {
    AfterRestart(env, ops);
    KeysAreHeldAndSaved(env, ops, id);
    KeysAreHeldAndSaved(env, ops + [RestartOp], id);
    if Lawful(env.json) {
      InfosAreHeldAndSaved(env, ops, id);
      InfosAreHeldAndSaved(env, ops + [RestartOp], id);
    }
  }

  /** A restart changes no client, time or key if and only if for every client what is held was saved. */
  lemma RestartKeepsPairingsExactly(env: Env, ops: seq<Op>)
    ensures
      var s, s' := Run(env, ops), Run(env, ops + [RestartOp]);
      s.clients == s'.clients && s.keys == s'.keys <==> forall id :: PairingIsSaved(env, ops, id)
  {
    var s, s' := Run(env, ops), Run(env, ops + [RestartOp]);
    if s.clients == s'.clients && s.keys == s'.keys {
      forall id ensures PairingIsSaved(env, ops, id) {
        RestartOfOne(env, ops, id);
      }
    }
    if forall id :: PairingIsSaved(env, ops, id) {
      forall id ensures Lookup(s.clients, id) == Lookup(s'.clients, id) && Lookup(s.keys, id) == Lookup(s'.keys, id) {
        RestartOfOne(env, ops, id);
      }
      SameLookupsSameMap(s.clients, s'.clients);
      SameLookupsSameMap(s.keys, s'.keys);
    }
  }

  /** And no SyncInfo either, if and only if that was saved too. */
  lemma RestartKeepsInfosExactly(env: Env, ops: seq<Op>)
    requires Lawful(env.json)
    ensures Run(env, ops).infos == Run(env, ops + [RestartOp]).infos <==>
            forall id :: InfoIsSaved(env, ops, id)
  {
    var s, s' := Run(env, ops), Run(env, ops + [RestartOp]);
    if s.infos == s'.infos {
      forall id ensures InfoIsSaved(env, ops, id) {
        RestartOfOne(env, ops, id);
      }
    }
    if forall id :: InfoIsSaved(env, ops, id) {
      forall id ensures Lookup(s.infos, id) == Lookup(s'.infos, id) {
        RestartOfOne(env, ops, id);
      }
      SameLookupsSameMap(s.infos, s'.infos);
    }
  }

  /** A client none of whose own statements failed holds, and has saved, its latest pairing since its last removal. */
  lemma {:induction false} HealthyPairingIsSaved(env: Env, ops: seq<Op>, id: ClientId)
    requires forall op <- ops :: Healthy(op, id)
    ensures Held(env, ops, id) == Saved(env, ops, id) == LatestPairing(env, ops, id)
    decreases |ops|
  {
    if ops != [] {
      assert ops[|ops| - 1] in ops;
      HealthyPairingIsSaved(env, ops[..|ops| - 1], id);
    }
  }

  /** So its key and time are those of that pairing. */
  lemma KeysComeFromLatestPairing(env: Env, ops: seq<Op>, id: ClientId)
    requires forall op <- ops :: Healthy(op, id)
    ensures MemoryHolds(Run(env, ops), id, LatestPairing(env, ops, id))
    ensures TableHolds(Run(env, ops), id, LatestPairing(env, ops, id))
  {
    HealthyPairingIsSaved(env, ops, id);
    KeysAreHeldAndSaved(env, ops, id);
  }

  /** The condition matters: a client whose removal failed at the database is back, key and all, after a restart. */
  lemma FailedRemovalComesBack(env: Env, id: ClientId, req: TrustRequest)
    requires env.pairing(req) && env.decodeKey(req.cryptPublicKey).Some? && req.token != 0
    ensures
      var removed := [TokenOp(req.token, None, 0), TrustOp(id, req, 0, true), RemoveOp(id, false)];
      && id !in Run(env, removed).clients
      && LatestPairing(env, removed + [RestartOp], id) == None
      && Lookup(Run(env, removed + [RestartOp]).keys, id) == env.decodeKey(req.cryptPublicKey)
  {
    var t, p, d := TokenOp(req.token, None, 0), TrustOp(id, req, 0, true), RemoveOp(id, false);
    var removed, none: seq<Op> := [t, p, d], [];
    assert [t][..0] == none && [t, p][..1] == [t] && removed[..2] == [t, p];
    assert Run(env, [t]) == Step(env, Run(env, none), t);
    assert PairedBy(env, [t], p, id) == Some((env.decodeKey(req.cryptPublicKey).value, 0));
    assert Saved(env, [t, p], id) == PairedBy(env, [t], p, id);
    assert Saved(env, removed, id) == Saved(env, [t, p], id);
    assert LatestPairing(env, removed, id) == None && Held(env, removed, id) == None;
    KeysAreHeldAndSaved(env, removed, id);
    AfterRestart(env, removed);
    KeysAreHeldAndSaved(env, removed + [RestartOp], id);
    assert (removed + [RestartOp])[..3] == removed;
  }

  predicate TimesAscend(ops: seq<Op>) {
    forall i, j | 0 <= i < j < |ops| && HasTime(ops[i]) && HasTime(ops[j]) :: TimeOf(ops[i]) <= TimeOf(ops[j])
  }

  predicate HasTime(op: Op) { !op.RemoveOp? && !op.RestartOp? }

  function TimeOf(op: Op): int
    requires HasTime(op)
  {
    op.now
  }

  /**
   * Every confirm that takes effect is backed by an earlier verified exchange of the same client, not more than
   * 30 seconds old, whose signing key verifies the confirm and whose encryption key is the one stored.
   */
  lemma ConfirmIsBacked(env: Env, ops: seq<Op>, j: nat)
    requires j < |ops| && ConfirmTakesEffect(env, Run(env, ops[..j]), ops[j])
    ensures
      var id := ops[j].id;
      var e := OpenExchange(env, ops[..j], id);
      && e.Some? && e.value < j
      && ExchangeTakesEffect(env, ops[e.value]) && ops[e.value].id == id
      && ops[j].now <= ops[e.value].now + PAIRING_TOKEN_TTL_MS
      && (TimesAscend(ops) ==> ops[e.value].now <= ops[j].now)
      && env.confirm(ops[e.value].exchange.signPublicKey, ops[j].confirm)
      && Lookup(Run(env, ops[..j + 1]).keys, id) == env.decodeKey(ops[e.value].exchange.cryptPublicKey)
  {
    PendingIsOpenExchange(env, ops[..j], ops[j].id);
    assert ops[..j + 1][..j] == ops[..j];
    var e := OpenExchange(env, ops[..j], ops[j].id).value;
    assert ops[..j][e] == ops[e];
    if TimesAscend(ops) {
      assert TimeOf(ops[e]) <= TimeOf(ops[j]);
    }
  }

  lemma {:induction false} LaterExchangeIsLater(env: Env, ops: seq<Op>, j: nat, k: nat)
    requires j < k <= |ops| && ConfirmTakesEffect(env, Run(env, ops[..j]), ops[j])
    ensures
      var e := OpenExchange(env, ops[..k], ops[j].id);
      e.Some? ==> e.value > j
    decreases k
  {
    assert ops[..k][..k - 1] == ops[..k - 1];
    if k > j + 1 {
      LaterExchangeIsLater(env, ops, j, k - 1);
    }
  }

  /** No exchange backs two confirms: the map from confirms to exchanges is injective over the whole run. */
  lemma ConfirmsUseDistinctExchanges(env: Env, ops: seq<Op>, j: nat, k: nat)
    requires j < k < |ops|
    requires ConfirmTakesEffect(env, Run(env, ops[..j]), ops[j])
    requires ConfirmTakesEffect(env, Run(env, ops[..k]), ops[k])
    ensures OpenExchange(env, ops[..j], ops[j].id) != OpenExchange(env, ops[..k], ops[k].id)
  {
    ConfirmIsBacked(env, ops, j);
    ConfirmIsBacked(env, ops, k);
    var e, f := OpenExchange(env, ops[..j], ops[j].id).value, OpenExchange(env, ops[..k], ops[k].id).value;
    assert ops[..j][e] == ops[e] && ops[..k][f] == ops[f];
    if ops[j].id == ops[k].id {
      LaterExchangeIsLater(env, ops, j, k);
    }
  }

  /** A confirm passes exactly when the client has an open exchange, at most 30 seconds old, whose key signed it. */
  lemma ConfirmAcceptedExactly(env: Env, ops: seq<Op>, id: ClientId, req: TrustConfirmRequest, now: int)
    ensures CheckConfirm(env, Run(env, ops), id, req, now).Ok? <==>
            match OpenExchange(env, ops, id)
            case None => false
            case Some(e) => now <= ops[e].now + PAIRING_TOKEN_TTL_MS && env.confirm(ops[e].exchange.signPublicKey, req)
  {
    PendingIsOpenExchange(env, ops, id);
  }

  /** Position of the pairing token in force: the latest one set since the last restart. */
  function OpenToken(ops: seq<Op>): (r: Option<nat>)
    ensures r.Some? ==> r.value < |ops| && ops[r.value].TokenOp?
  {
    if ops == [] then None
    else if ops[|ops| - 1].TokenOp? then Some(|ops| - 1)
    else if ops[|ops| - 1].RestartOp? then None
    else OpenToken(ops[..|ops| - 1])
  }

  lemma {:induction false} TokenIsOpenToken(env: Env, ops: seq<Op>)
    ensures Run(env, ops).token ==
            match OpenToken(ops)
            case None => NO_TOKEN
            case Some(k) => PairingToken(ops[k].value, ops[k].now + PAIRING_TOKEN_TTL_MS, ops[k].forClient)
    decreases |ops|
  {
    if ops != [] {
      TokenIsOpenToken(env, ops[..|ops| - 1]);
    }
  }

  /** A v1 trust passes exactly when it is signed, its key decodes, and it shows the token in force in time. */
  lemma TrustAcceptedExactly(env: Env, ops: seq<Op>, req: TrustRequest, now: int)
    ensures CheckTrust(env, Run(env, ops), req, now).Ok? <==>
            && env.pairing(req) && env.decodeKey(req.cryptPublicKey).Some?
            && match OpenToken(ops)
               case None => false
               case Some(k) => req.token == ops[k].value != 0 && now <= ops[k].now + PAIRING_TOKEN_TTL_MS
  {
    TokenIsOpenToken(env, ops);
  }

  /** Every v1 trust that takes effect shows the token in force, set by an earlier step at most 30 seconds before. */
  lemma TrustIsBacked(env: Env, ops: seq<Op>, j: nat)
    requires j < |ops| && TrustTakesEffect(env, Run(env, ops[..j]), ops[j])
    ensures
      var k := OpenToken(ops[..j]);
      && k.Some? && k.value < j && ops[k.value].TokenOp?
      && ops[k.value].value != 0 && ops[j].trust.token == ops[k.value].value
      && ops[j].now <= ops[k.value].now + PAIRING_TOKEN_TTL_MS
      && env.pairing(ops[j].trust)
      && Lookup(Run(env, ops[..j + 1]).keys, ops[j].id) == env.decodeKey(ops[j].trust.cryptPublicKey)
  {
    TokenIsOpenToken(env, ops[..j]);
    assert ops[..j + 1][..j] == ops[..j];
    var k := OpenToken(ops[..j]).value;
    assert ops[..j][k] == ops[k];
  }

  // ---------- Replies ----------

  /** The reply to every v1 trust, in every run: the first thing amiss, by the token in force. */
  lemma TrustAnswersExactly(env: Env, ops: seq<Op>, id: ClientId, req: TrustRequest, now: int, dbOk: bool)
    ensures
      var reply := TrustV1(env, Run(env, ops), id, req, now, dbOk).1;
      if !env.pairing(req) then reply == Err(InvalidSignature)
      else
        match OpenToken(ops)
        case None => reply == Err(TokenNotRequested)
        case Some(k) =>
          if ops[k].value == 0 then reply == Err(TokenNotRequested)
          else if now > ops[k].now + 30_000 then reply == Err(TokenExpired)
          else if req.token != ops[k].value then reply == Err(TokenMismatch)
          else if env.decodeKey(req.cryptPublicKey).None? then reply == Err(MalformedKey)
          else reply == if dbOk then Ok(()) else Err(DatabaseFailure)
  {
    TokenIsOpenToken(env, ops);
  }

  /** The reply to every exchange: the SAS of the client's key, unless signature or key is bad. */
  lemma ExchangeAnswersExactly(env: Env, s: Pairing, id: ClientId, req: KeyExchangeRequest, now: int, sas: nat)
    ensures ExchangeV2(env, s, id, req, now).1 == Ok(sas) <==>
            env.exchange(req) && env.decodeKey(req.cryptPublicKey).Some?
            && sas == env.sas(env.decodeKey(req.cryptPublicKey).value)
    ensures ExchangeV2(env, s, id, req, now).1 == Err(InvalidSignature) <==> !env.exchange(req)
    ensures ExchangeV2(env, s, id, req, now).1 == Err(MalformedKey) <==>
            env.exchange(req) && env.decodeKey(req.cryptPublicKey).None?
  {
  }

  /** The reply to every confirm, in every run: the first thing amiss, by the client's open exchange. */
  lemma ConfirmAnswersExactly(env: Env, ops: seq<Op>, id: ClientId, req: TrustConfirmRequest, now: int, dbOk: bool)
    ensures
      var reply := ConfirmV2(env, Run(env, ops), id, req, now, dbOk).1;
      match OpenExchange(env, ops, id)
      case None => reply == Err(ExchangeNotFound)
      case Some(e) =>
        if now > ops[e].now + 30_000 then reply == Err(ExchangeExpired)
        else if !env.confirm(ops[e].exchange.signPublicKey, req) then reply == Err(InvalidSignature)
        else reply == if dbOk then Ok(()) else Err(DatabaseFailure)
  {
    PendingIsOpenExchange(env, ops, id);
  }

  /** The replies to a SyncInfo update, which needs a client held in memory, and to a removal, which does not. */
  lemma UpdateAndRemoveAnswerExactly(env: Env, ops: seq<Op>, id: ClientId, info: SyncInfo, now: int, dbOk: bool)
    ensures UpdateSyncInfo(env, Run(env, ops), id, info, now, dbOk).1 ==
            if Held(env, ops, id).None? then Err(NotPaired) else if dbOk then Ok(()) else Err(DatabaseFailure)
    ensures Remove(Run(env, ops), id, dbOk).1 == if dbOk then Ok(()) else Err(DatabaseFailure)
  {
    KeysAreHeldAndSaved(env, ops, id);
  }

  // ---------- Last seen ----------

  /** When the client was last touched, or told its SyncInfo, with a row to record it in. */
  function SeenAt(env: Env, ops: seq<Op>, id: ClientId): Option<int> {
    if ops == [] then None
    else
      var before, op := ops[..|ops| - 1], ops[|ops| - 1];
      var touches := (op.TouchOp? && op.id == id && op.dbOk) || TellsOf(env, before, op, id);
      if touches && Saved(env, before, id).Some? then Some(op.now)
      else if Removes(op, id) && op.dbOk then None
      else SeenAt(env, before, id)
  }

  function RowSeen(t: ClientTable, id: ClientId): Option<int> {
    if id in t then t[id].lastSeenMs else None
  }

  /** One step, seen from the last-seen time in a client's row; pairing again does not change it. */
  lemma SeenStep(env: Env, s: Pairing, op: Op, id: ClientId)
    ensures
      var touches := || (op.TouchOp? && op.id == id && op.dbOk)
                     || (op.SyncInfoOp? && op.id == id && op.dbOk && id in s.clients);
      RowSeen(Step(env, s, op).table, id) ==
      if touches && id in s.table then Some(op.now)
      else if Removes(op, id) && op.dbOk then None
      else RowSeen(s.table, id)
  {
  }

  /** In every run, a row's last-seen time is that of the latest touch or SyncInfo since the row was made. */
  lemma {:induction false} SeenIsLatest(env: Env, ops: seq<Op>, id: ClientId)
    ensures RowSeen(Run(env, ops).table, id) == SeenAt(env, ops, id)
    decreases |ops|
  {
    if ops != [] {
      var before, op := ops[..|ops| - 1], ops[|ops| - 1];
      SeenIsLatest(env, before, id);
      KeysAreHeldAndSaved(env, before, id);
      SeenStep(env, Run(env, before), op, id);
    }
  }

  /** Removing a client does not withdraw its open exchange: a later confirm is judged as before and re-admits it. */
  lemma RemovalKeepsOpenExchange(env: Env, s: Pairing, id: ClientId, req: TrustConfirmRequest, now: int, dbOk: bool)
    ensures ConfirmV2(env, Remove(s, id, dbOk).0, id, req, now, true).1 == ConfirmV2(env, s, id, req, now, true).1
    ensures ConfirmV2(env, s, id, req, now, true).1.Ok? ==>
            id in ConfirmV2(env, Remove(s, id, dbOk).0, id, req, now, true).0.clients
  {
  }
}
