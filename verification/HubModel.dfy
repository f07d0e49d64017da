/**
 * The hub as an object: its maps are fields that the methods update, over a database object and the transfer
 * directory.  `Pairs` and `Files` read the fields as the values that PairingSpec and RelaySpec speak about,
 * and every method is proved to do to them what the function of the same call says.
 */
module HubModel {
  import opened Prelude
  import opened Chunking
  import opened BigEndian
  import opened Secure
  import opened Stream
  import opened Forwarding
  import opened DatabaseModel
  import P = PairingSpec
  import R = RelaySpec

  /** What the hub knows of its clients, what it is sending, and how the outside world will react. */
  datatype Fanout = Fanout(
    suite: Suite,
    infos: map<ClientId, P.SyncInfo>,
    keys: map<ClientId, Bytes>,
    done: R.Completed,
    source: Result<Bytes, R.RelayError>,
    ivs: nat -> Block,
    prepared: ClientId -> Option<R.PrepareResponse>,
    remotes: ClientId -> Target)
  {
    /** A target is reached when it has a host, its key works, it prepares the push, and the upload succeeds. */
    predicate Reaches(target: ClientId) {
      && target in infos && infos[target].hostAddresses != []
      && SharedKey(suite, Lookup(keys, target)).Ok?
      && prepared(target).Some?
      && Upload(suite, Lookup(keys, target), source, prepared(target).value, ivs, remotes(target)).0.Ok?
    }

    function Reached(): set<ClientId> {
      set t | t in infos && t != done.owner && Reaches(t)
    }
  }

  /**
   * Which targets a fan-out reaches: those with a host and a usable key that answer the announcement with the right
   * number of chunks of some positive size and then take every chunk and the completion, provided the file can be read.
   */
  lemma ReachesExactly(f: Fanout, target: ClientId)
    ensures f.Reaches(target) <==>
            && target in f.infos && f.infos[target].hostAddresses != []
            && SharedKey(f.suite, Lookup(f.keys, target)).Ok?
            && f.source.Ok?
            && f.prepared(target).Some?
            && var answer := f.prepared(target).value;
               && answer.chunkSize > 0 && answer.chunkCount == CeilDiv(|f.source.value|, answer.chunkSize)
               && TakesAll(f.remotes(target), answer.chunkCount) && f.remotes(target).acceptsCompletion
  {
    if f.source.Ok? && f.prepared(target).Some? {
      UploadEndsExactly(f.suite, Lookup(f.keys, target), f.source.value, f.prepared(target).value, f.ivs,
                        f.remotes(target));
    }
  }

  lemma ReachedAreTargets(f: Fanout, targets: set<ClientId>)
    requires targets == f.infos.Keys - {f.done.owner}
    ensures f.Reached() <= targets
    ensures forall t <- targets :: t in f.Reached() <==> f.Reaches(t)
  {
  }

  /** The loop of an upload: each body is encrypted, then posted, until one is refused; then comes the completion. */
  method PostBodies(body: nat -> Result<Bytes, PayloadError>, n: nat, remote: Target)
    returns (r: Result<(), UploadError>, bodies: seq<Bytes>)
    ensures (r, bodies) == UploadFrom(body, n, 0, remote)
  {
    bodies := [];
    ghost var all := UploadFrom(body, n, 0, remote);
    for i := 0 to n
      invariant all.0 == UploadFrom(body, n, i, remote).0
      invariant all.1 == bodies + UploadFrom(body, n, i, remote).1
    {
      var encrypted := body(i);
      assert bodies + [] == bodies;
      if encrypted.Err? { return Err(CannotEncrypt(encrypted.error)), bodies; }
      ghost var rest := UploadFrom(body, n, i + 1, remote).1;
      assert bodies + ([encrypted.value] + rest) == bodies + [encrypted.value] + rest;
      bodies := bodies + [encrypted.value];
      if !remote.acceptsChunk(i) { return Err(ChunkRejected(i)), bodies; }
    }
    assert bodies + [] == bodies;
    var nothing := body(n);
    if nothing.Err? { return Err(CannotEncrypt(nothing.error)), bodies; }
    if !remote.acceptsCompletion { return Err(CompletionRejected), bodies; }
    return Ok(()), bodies;
  }

  /** The two counters of a broadcast when the targets in `todo` are still to be tried. */
  ghost predicate Tally(targets: set<ClientId>, reached: set<ClientId>, todo: set<ClientId>,
                        delivered: nat, failed: nat)
  {
    todo <= targets && delivered == |reached - todo| && delivered + failed == |targets| - |todo|
  }

  lemma TallyOne(targets: set<ClientId>, counted: set<ClientId>, todo: set<ClientId>, x: ClientId,
                 delivered: nat, failed: nat)
    requires Tally(targets, counted, todo, delivered, failed) && x in todo
    ensures if x in counted then Tally(targets, counted, todo - {x}, delivered + 1, failed)
            else Tally(targets, counted, todo - {x}, delivered, failed + 1)
  {
    if x in counted {
      assert counted - (todo - {x}) == (counted - todo) + {x};
    } else {
      assert counted - (todo - {x}) == counted - todo;
    }
  }

  /** One push in progress.  Its received vector is updated in place behind a lock. */
  class PushSession {
    const pasteId: int
    const owner: ClientId
    const paste: R.Paste
    const token: string
    const chunkCount: nat
    const directory: R.Directory
    var received: seq<bool>

    constructor (pasteId: int, owner: ClientId, paste: R.Paste, token: string, chunkCount: nat)
      ensures this.pasteId == pasteId
      ensures Value() == R.Session(owner, paste, token, chunkCount, seq(chunkCount, _ => false), R.PushDir(pasteId))
    {
      this.pasteId, this.owner, this.paste, this.token := pasteId, owner, paste, token;
      this.chunkCount, this.directory := chunkCount, R.PushDir(pasteId);
      received := seq(chunkCount, _ => false);
    }

    function Value(): R.Session
      reads this
    {
      R.Session(owner, paste, token, chunkCount, received, directory)
    }
  }

  class Hub {
    const suite: Suite
    const env: P.Env
    const database: Database
    var disk: map<(R.Directory, nat), Bytes>
    var pairingToken: P.PairingToken
    var clients: map<ClientId, P.PairedClient>
    var clientCryptKeys: map<ClientId, Bytes>
    var pendingKeyExchanges: map<ClientId, P.Pending>
    var clientSyncInfos: map<ClientId, P.SyncInfo>
    var pushSessions: map<int, PushSession>
    var storedFiles: map<int, R.Stored>

    /** A session is filed under its own paste id, so no two ids share a session. */
    ghost predicate Valid()
      reads this`pushSessions
    {
      forall id <- pushSessions :: pushSessions[id].pasteId == id
    }

    function Pairs(): P.Pairing
      reads this`pairingToken, this`clients, this`clientCryptKeys, this`pendingKeyExchanges, this`clientSyncInfos
      reads database`pairedClients
    {
      P.Pairing(pairingToken, clients, clientCryptKeys, pendingKeyExchanges, clientSyncInfos, database.pairedClients)
    }

    function Files(): R.Relay
      reads this`disk, this`pushSessions, this`storedFiles, pushSessions.Values, database`fileChunks
    {
      R.Relay(map id | id in pushSessions :: pushSessions[id].Value(), storedFiles, disk, database.fileChunks)
    }

    /** Start-up over an existing data directory: the clients come from the table, the files stay on disk. */
    constructor LoadOrCreate(suite: Suite, env: P.Env, database: Database, onDisk: map<(R.Directory, nat), Bytes>)
      ensures this.suite == suite && this.env == env && this.database == database
      ensures Valid()
      ensures Pairs() == P.Rebuild(env, database.pairedClients)
      ensures Files() == R.Relay(map[], map[], onDisk, database.fileChunks)
    {
      this.suite, this.env, this.database := suite, env, database;
      disk, pushSessions, storedFiles := onDisk, map[], map[];
      pairingToken, pendingKeyExchanges := P.NO_TOKEN, map[];
      clients, clientCryptKeys, clientSyncInfos := map[], map[], map[];
      new;
      var table := database.pairedClients;
      var todo := table.Keys;
      ghost var loaded: P.ClientTable := map[];
      while todo != {}
        invariant todo <= table.Keys && loaded == table - todo
        invariant clients == P.ClientsOf(loaded)
        invariant clientCryptKeys == P.KeysOf(loaded)
        invariant clientSyncInfos == P.InfosOf(env, loaded)
        modifies this`clients, this`clientCryptKeys, this`clientSyncInfos
        decreases todo
      {
        var id :| id in todo;
        P.RebuildAddsRow(env, loaded, id, table[id]);
        LoadRow(id, table[id]);
        todo := todo - {id};
        loaded := loaded[id := table[id]];
      }
      assert loaded == table;
    }

    /** One row of the table, if the query's `enabled=1` selects it; a SyncInfo that does not parse is dropped. */
    method LoadRow(id: ClientId, row: P.ClientRow)
      modifies this`clients, this`clientCryptKeys, this`clientSyncInfos
      ensures clients == if row.enabled then old(clients)[id := P.PairedClient(id, row.pairedAtMs)] else old(clients)
      ensures clientCryptKeys ==
              if row.enabled then old(clientCryptKeys)[id := row.cryptPublicKey] else old(clientCryptKeys)
      ensures clientSyncInfos ==
              if P.RestoresInfo(env, row) then old(clientSyncInfos)[id := P.StoredInfo(env, row).value]
              else old(clientSyncInfos)
    {
      if !row.enabled { return; }
      if row.syncInfoJson.Some? {
        var parsed := env.json.decode(row.syncInfoJson.value);
        if parsed.Some? {
          clientSyncInfos := clientSyncInfos[id := parsed.value];
        }
      }
      clientCryptKeys := clientCryptKeys[id := row.cryptPublicKey];
      clients := clients[id := P.PairedClient(id, row.pairedAtMs)];
    }

    // ---------- Pairing ----------

    method SetPairingTokenFor(token: nat, clientId: Option<ClientId>, now: int)
      modifies this`pairingToken
      ensures Pairs() == P.SetToken(old(Pairs()), token, clientId, now)
    {
      pairingToken := P.PairingToken(token, now + P.PAIRING_TOKEN_TTL_MS, clientId);
    }

    method TrustV1(id: ClientId, request: P.TrustRequest, now: int, dbOk: bool) returns (r: Result<(), P.PairingError>)
      modifies this`clients, this`clientCryptKeys, database`pairedClients
      ensures (Pairs(), r) == P.TrustV1(env, old(Pairs()), id, request, now, dbOk)
    {
      if !env.pairing(request) { return Err(P.InvalidSignature); }
      if pairingToken.value == 0 { return Err(P.TokenNotRequested); }
      if pairingToken.expiresAtMs < now { return Err(P.TokenExpired); }
      if request.token != pairingToken.value { return Err(P.TokenMismatch); }
      var decoded := env.decodeKey(request.cryptPublicKey);
      if decoded.None? { return Err(P.MalformedKey); }
      clientCryptKeys := clientCryptKeys[id := decoded.value];
      clients := clients[id := P.PairedClient(id, now)];
      var saved := database.SaveClient(id, now, decoded.value, dbOk);
      if saved.Err? { return Err(P.DatabaseFailure); }
      return Ok(());
    }

    method ExchangeKeysV2(id: ClientId, request: P.KeyExchangeRequest, now: int)
      returns (r: Result<nat, P.PairingError>)
      modifies this`pendingKeyExchanges
      ensures (Pairs(), r) == P.ExchangeV2(env, old(Pairs()), id, request, now)
    {
      if !env.exchange(request) { return Err(P.InvalidSignature); }
      var decoded := env.decodeKey(request.cryptPublicKey);
      if decoded.None? { return Err(P.MalformedKey); }
      var sas := env.sas(decoded.value);
      pendingKeyExchanges := pendingKeyExchanges[id :=
        P.Pending(request.signPublicKey, decoded.value, sas, now + P.PAIRING_TOKEN_TTL_MS)];
      return Ok(sas);
    }

    method ConfirmTrustV2(id: ClientId, request: P.TrustConfirmRequest, now: int, dbOk: bool)
      returns (r: Result<(), P.PairingError>)
      modifies this`pendingKeyExchanges, this`clients, this`clientCryptKeys, database`pairedClients
      ensures (Pairs(), r) == P.ConfirmV2(env, old(Pairs()), id, request, now, dbOk)
    {
      if id !in pendingKeyExchanges { return Err(P.ExchangeNotFound); }
      var pending := pendingKeyExchanges[id];
      if pending.expiresAtMs < now { return Err(P.ExchangeExpired); }
      if !env.confirm(pending.signPublicKey, request) { return Err(P.InvalidSignature); }
      pendingKeyExchanges := pendingKeyExchanges - {id};
      clientCryptKeys := clientCryptKeys[id := pending.cryptPublicKey];
      clients := clients[id := P.PairedClient(id, now)];
      var saved := database.SaveClient(id, now, pending.cryptPublicKey, dbOk);
      if saved.Err? { return Err(P.DatabaseFailure); }
      return Ok(());
    }

    method UpdateClientSyncInfo(id: ClientId, info: P.SyncInfo, now: int, dbOk: bool)
      returns (r: Result<(), P.PairingError>)
      modifies this`clientSyncInfos, database`pairedClients
      ensures (Pairs(), r) == P.UpdateSyncInfo(env, old(Pairs()), id, info, now, dbOk)
    {
      if id !in clients { return Err(P.NotPaired); }
      var saved := database.UpdateClientSyncInfo(id, env.json.encode(info), now, dbOk);
      if saved.Err? { return Err(P.DatabaseFailure); }
      clientSyncInfos := clientSyncInfos[id := info];
      return Ok(());
    }

    /** The result of the statement is ignored. */
    method TouchClient(id: ClientId, now: int, dbOk: bool)
      modifies database`pairedClients
      ensures Pairs() == P.Touch(old(Pairs()), id, now, dbOk)
    {
      var _ := database.TouchClient(id, now, dbOk);
    }

    method RemoveClient(id: ClientId, dbOk: bool) returns (r: Result<(), P.PairingError>)
      modifies this`clients, this`clientCryptKeys, this`clientSyncInfos, database`pairedClients
      ensures (Pairs(), r) == P.Remove(old(Pairs()), id, dbOk)
    {
      clients := clients - {id};
      clientCryptKeys := clientCryptKeys - {id};
      clientSyncInfos := clientSyncInfos - {id};
      var removed := database.RemoveClient(id, dbOk);
      if removed.Err? { return Err(P.DatabaseFailure); }
      return Ok(());
    }

    // ---------- Push ----------

    method PreparePush(client: ClientId, paste: R.Paste, now: int, token: string, diskOk: bool)
      returns (r: Result<R.PrepareResponse, R.RelayError>)
      requires Valid()
      modifies this`pushSessions
      ensures Valid()
      ensures (Files(), r) == R.Prepare(old(Files()), client, client in clients, paste, now, token, diskOk)
    {
      if client !in clients { return Err(R.Unpaired); }
      var size := R.AsU64(paste.size);
      if size.None? { return Err(R.MissingSize); }
      if size.value == 0 { return Err(R.ZeroSize); }
      if !diskOk { return Err(R.DiskError); }
      var chunkCount := CeilDiv(size.value, R.FILE_CHUNK_SIZE);
      var session := new PushSession(now, client, paste, token, chunkCount);
      pushSessions := pushSessions[now := session];
      r := Ok(R.PrepareResponse(now, chunkCount, R.FILE_CHUNK_SIZE, token));
      assert Files().sessions == old(Files()).sessions[now := session.Value()];
    }

    method StorePushChunk(client: ClientId, id: int, index: nat, token: string, bytes: Bytes, io: R.Io)
      returns (r: Result<(), R.RelayError>)
      requires Valid()
      modifies this`disk, database`fileChunks, pushSessions.Values
      ensures Valid() && pushSessions == old(pushSessions)
      ensures (Files(), r) == R.Store(old(Files()), client, id, index, token, bytes, io)
    {
      if id !in pushSessions { return Err(R.SessionNotFound); }
      var session := pushSessions[id];
      assert old(Files()).sessions[id] == session.Value();
      if session.owner != client { return Err(R.OwnerMismatch); }
      if session.token != token { return Err(R.InvalidToken); }
      if index >= session.chunkCount || index >= |session.received| { return Err(R.IndexOutOfRange); }
      disk := R.WriteFile(disk, session.directory, index, R.LeftBy(io.file, bytes));
      assert Files().sessions == old(Files()).sessions;
      if !io.file.Whole? { return Err(R.DiskError); }
      var saved := database.SaveFileChunk(id, index, bytes, io.rowOk);
      assert Files().sessions == old(Files()).sessions;
      if saved.Err? { return Err(R.DatabaseError); }
      session.received := session.received[index := true];
      assert forall other <- pushSessions :: other != id ==> pushSessions[other] != session;
      assert Files().sessions == old(Files()).sessions[id := session.Value()];
      return Ok(());
    }

    method CompletePush(client: ClientId, id: int, token: string)
      returns (r: Result<(seq<nat>, Option<R.Completed>), R.RelayError>)
      requires Valid()
      modifies this`pushSessions
      ensures Valid()
      ensures (Files(), r) == R.Complete(old(Files()), client, id, token)
    {
      if id !in pushSessions { return Err(R.SessionNotFound); }
      var session := pushSessions[id];
      assert Files().sessions[id] == session.Value();
      if session.owner != client { return Err(R.OwnerMismatch); }
      if session.token != token { return Err(R.InvalidToken); }
      var missing: seq<nat> := [];
      for index := 0 to |session.received|
        invariant R.MissingFrom(session.received, 0) == missing + R.MissingFrom(session.received, index)
      {
        if !session.received[index] {
          missing := missing + [index];
        }
      }
      assert missing == R.MissingFrom(session.received, 0);
      if missing != [] { return Ok((missing, None)); }
      pushSessions := pushSessions - {id};
      assert Files().sessions == old(Files()).sessions - {id};
      var done := R.Completed(session.pasteId, session.owner, session.paste, session.chunkCount, session.directory);
      return Ok((missing, Some(done)));
    }

    method ReadCompletedPush(done: R.Completed) returns (r: Result<Bytes, R.RelayError>)
      ensures r == R.ReadCompleted(Files(), done)
    {
      var bytes: Bytes := [];
      ghost var whole := R.ReadFiles(disk, done.directory, 0, done.chunkCount);
      PrependNothing(whole);
      for index := 0 to done.chunkCount
        invariant whole == Prepend(bytes, R.ReadFiles(disk, done.directory, index, done.chunkCount))
      {
        if (done.directory, index) !in disk { return Err(R.DiskError); }
        ghost var rest := R.ReadFiles(disk, done.directory, index + 1, done.chunkCount);
        PrependTwice(bytes, disk[(done.directory, index)], rest);
        bytes := bytes + disk[(done.directory, index)];
      }
      assert bytes + [] == bytes;
      return Ok(bytes);
    }

    /** The query may fail; a row or file that is there is taken to be readable. */
    method ReadFileChunk(id: int, index: nat, queryOk: bool) returns (r: Result<Bytes, R.RelayError>)
      ensures r == if queryOk then R.ReadFileChunk(Files(), id, index) else Err(R.DatabaseError)
    {
      if !queryOk { return Err(R.DatabaseError); }
      var row := database.LoadFileChunk(id, index);
      if row.Some? { return Ok(row.value); }
      if id !in storedFiles { return Err(R.FileNotFound); }
      var stored := storedFiles[id];
      if index >= stored.chunkCount { return Err(R.IndexOutOfRange); }
      if (stored.directory, index) !in disk { return Err(R.DiskError); }
      return Ok(disk[(stored.directory, index)]);
    }

    // ---------- Encrypted payloads and streams ----------

    method EncryptForClient(id: ClientId, plaintext: Bytes, iv: Block) returns (r: Result<Bytes, PayloadError>)
      ensures r == EncryptFor(suite, Lookup(clientCryptKeys, id), plaintext, iv)
    {
      if id !in clientCryptKeys { return Err(MissingKey); }
      return Secure.EncryptForClient(suite, clientCryptKeys[id], plaintext, iv);
    }

    method DecryptFromClient(id: ClientId, ciphertext: Bytes) returns (r: Result<Bytes, PayloadError>)
      ensures r == DecryptFor(suite, Lookup(clientCryptKeys, id), ciphertext)
    {
      if id !in clientCryptKeys { return Err(MissingKey); }
      return Secure.DecryptFromClient(suite, clientCryptKeys[id], ciphertext);
    }

    /** The length prefix is cast to u32; the proof shows that the cast never truncates. */
    method EncryptStreamForClient(id: ClientId, plaintext: Bytes, ivs: nat -> Block)
      returns (r: Result<Bytes, PayloadError>)
      ensures r == EncodeStreamFor(suite, Lookup(clientCryptKeys, id), plaintext, ivs)
    {
      ghost var shared := SharedKey(suite, Lookup(clientCryptKeys, id));
      var parts := Chunks(plaintext, STREAM_PIECE);
      PiecesAreSmall(plaintext);
      ghost var frames := if shared.Ok? then Frames(suite, shared.value, parts, Drawn(ivs, |parts|)) else [];
      var output: Bytes := [];
      for i := 0 to |parts|
        invariant i > 0 ==> shared.Ok?
        invariant shared.Ok? ==> output == Join(frames[..i])
        invariant i == 0 ==> output == []
      {
        var encrypted := EncryptForClient(id, parts[i], ivs(i));
        if encrypted.Err? { return Err(encrypted.error); }
        FrameAt(suite, shared.value, parts, Drawn(ivs, |parts|), i);
        OneMoreFrame(frames, i, encrypted.value);
        output := output + (U32ToBytes(|encrypted.value| % U32_LIMIT) + encrypted.value);
      }
      assert frames[..|frames|] == frames;
      return Ok(output);
    }

    method DecryptStreamFromClient(id: ClientId, ciphertext: Bytes) returns (r: Result<Bytes, StreamError>)
      ensures r == DecodeStreamFor(suite, Lookup(clientCryptKeys, id), ciphertext)
    {
      var onFile := Lookup(clientCryptKeys, id);
      r := DecodeLoop(b => DecryptFor(suite, onFile, b), ciphertext);
    }

    // ---------- Forwarding ----------

    method UploadCompletedPushToTarget(target: ClientId, done: R.Completed, prepare: R.PrepareResponse,
                                       ivs: nat -> Block, remote: Target)
      returns (r: Result<(), UploadError>, bodies: seq<Bytes>)
      ensures (r, bodies) ==
              Upload(suite, Lookup(clientCryptKeys, target), R.ReadCompleted(Files(), done), prepare, ivs, remote)
    {
      bodies := [];
      var source := ReadCompletedPush(done);
      if source.Err? { return Err(Unreadable(source.error)), []; }
      if prepare.chunkSize == 0 { return Err(ZeroChunkSize), []; }
      if CeilDiv(|source.value|, prepare.chunkSize) != prepare.chunkCount { return Err(CountMismatch), []; }
      var pieces, key := Chunks(source.value, prepare.chunkSize), Lookup(clientCryptKeys, target);
      r, bodies := PostBodies(i => Body(suite, key, pieces, ivs, i), |pieces|, remote);
    }

    /**
     * Fan-out of a completed push: every other client with SyncInfo is tried once.  `prepared` is what each target
     * answers to the announcement, None when it refuses or its answer cannot be read.
     */
    method BroadcastCompletedPush(done: R.Completed, ivs: nat -> Block,
                                  prepared: ClientId -> Option<R.PrepareResponse>, remotes: ClientId -> Target)
      returns (attempted: nat, delivered: nat, failed: nat)
      requires Valid()
      modifies this`storedFiles
      ensures Valid()
      ensures Files() == R.FinishFanout(old(Files()), done)
      ensures attempted == |clientSyncInfos.Keys - {done.owner}| && attempted == delivered + failed
      ensures delivered == |old(FanoutOf(done, ivs, prepared, remotes)).Reached()|
    {
      var targets := clientSyncInfos.Keys - {done.owner};
      ghost var fanout := FanoutOf(done, ivs, prepared, remotes);
      attempted := |targets|;
      ReachedAreTargets(fanout, targets);
      delivered, failed := TryTargets(done, targets, ivs, prepared, remotes, fanout, fanout.Reached());
      storedFiles := storedFiles[done.pasteId := R.Stored(done.directory, done.chunkCount)];
      assert Files().sessions == old(Files()).sessions;
    }

    function FanoutOf(done: R.Completed, ivs: nat -> Block,
                      prepared: ClientId -> Option<R.PrepareResponse>, remotes: ClientId -> Target): Fanout
      reads this`clientSyncInfos, this`clientCryptKeys
      reads this`disk, this`pushSessions, this`storedFiles, pushSessions.Values, database`fileChunks
    {
      Fanout(suite, clientSyncInfos, clientCryptKeys, done, R.ReadCompleted(Files(), done), ivs, prepared, remotes)
    }

    /** The loop over the targets, each tried once, in whatever order the map yields them. */
    method TryTargets(done: R.Completed, targets: set<ClientId>, ivs: nat -> Block,
                      prepared: ClientId -> Option<R.PrepareResponse>, remotes: ClientId -> Target,
                      ghost fanout: Fanout, ghost reached: set<ClientId>)
      returns (delivered: nat, failed: nat)
      requires targets <= clientSyncInfos.Keys - {done.owner}
      requires fanout == FanoutOf(done, ivs, prepared, remotes)
      requires reached <= targets && forall t <- targets :: t in reached <==> fanout.Reaches(t)
      ensures delivered == |reached| && delivered + failed == |targets|
    {
      delivered, failed := 0, 0;
      var todo := targets;
      assert reached - todo == {};
      while todo != {}
        invariant Tally(targets, reached, todo, delivered, failed)
        decreases todo
      {
        var target :| target in todo;
        var ok := TryTarget(done, target, ivs, prepared, remotes, fanout);
        TallyOne(targets, reached, todo, target, delivered, failed);
        todo := todo - {target};
        if ok { delivered := delivered + 1; } else { failed := failed + 1; }
      }
      assert reached - todo == reached;
    }

    method TryTarget(done: R.Completed, target: ClientId, ivs: nat -> Block,
                     prepared: ClientId -> Option<R.PrepareResponse>, remotes: ClientId -> Target, ghost fanout: Fanout)
      returns (ok: bool)
      requires target in clientSyncInfos
      requires fanout == FanoutOf(done, ivs, prepared, remotes)
      ensures ok == fanout.Reaches(target)
    {
      if clientSyncInfos[target].hostAddresses == [] { return false; }
      var announcement := EncryptForClient(target, [], ivs(0));
      if announcement.Err? { return false; }
      if prepared(target).None? { return false; }
      var uploaded, _ := UploadCompletedPushToTarget(target, done, prepared(target).value, ivs, remotes(target));
      return uploaded.Ok?;
    }

    // ---------- Pull ----------

    /** What a pull from this client obtains for each index. */
    function Obtained(client: ClientId, fetch: nat -> Option<Bytes>): nat -> Option<Bytes>
      reads this`clientCryptKeys
    {
      var onFile := Lookup(clientCryptKeys, client);
      i => Obtain(suite, onFile, fetch, i)
    }

    /**
     * The chunks of a pull-mode file, fetched one by one from the client that has it.  `dirOk` says whether the
     * directory can be made, `writes` what becomes of each file.
     */
    method CachePullFileFromClient(client: ClientId, paste: R.Paste, now: int, fetch: nat -> Option<Bytes>,
                                   dirOk: bool, writes: nat -> R.FileWrite)
      returns (r: Result<int, R.RelayError>)
      requires Valid()
      modifies this`disk, this`storedFiles
      ensures Valid()
      ensures
        match R.CheckPull(paste, Hosts(client))
        case Err(e) => r == Err(e) && Files() == old(Files())
        case Ok(count) =>
          if !dirOk then r == Err(R.DiskError) && Files() == old(Files())
          else
            var obtain := Obtained(client, fetch);
            var pieces := UntilFailure(Kept(obtain, writes), 0, count);
            && Files() == R.CachePull(old(Files()), now, count, pieces, Leftover(obtain, writes, |pieces|))
            && r == if |pieces| == count then Ok(now)
                    else if obtain(|pieces|).None? then Err(R.SourceFailed)
                    else Err(R.DiskError)
    {
      if R.AsI64(paste.id).None? { return Err(R.MissingId); }
      var size := R.AsU64(paste.size);
      if size.None? { return Err(R.MissingSize); }
      if client !in clientSyncInfos { return Err(R.NoSyncInfo); }
      if clientSyncInfos[client].hostAddresses == [] { return Err(R.NoReachableHost); }
      if !dirOk { return Err(R.DiskError); }
      var count := CeilDiv(size.value, R.FILE_CHUNK_SIZE);
      var fetched := FetchPieces(Obtained(client, fetch), writes, now, count);
      assert Files().sessions == old(Files()).sessions;
      if fetched.Err? { return Err(fetched.error); }
      storedFiles := storedFiles[now := R.Stored(R.PullDir(now), count)];
      return Ok(now);
    }

    /** The addresses that a client's SyncInfo offers. */
    function Hosts(client: ClientId): Option<seq<string>>
      reads this`clientSyncInfos
    {
      if client in clientSyncInfos then Some(clientSyncInfos[client].hostAddresses) else None
    }

    /** The loop of a pull: each chunk is obtained, then written under its index, until one of the two fails. */
    method FetchPieces(obtain: nat -> Option<Bytes>, writes: nat -> R.FileWrite, now: int, count: nat)
      returns (r: Result<(), R.RelayError>)
      modifies this`disk
      ensures
        var pieces := UntilFailure(Kept(obtain, writes), 0, count);
        var written := R.WriteFiles(old(disk), R.PullDir(now), pieces);
        && |pieces| <= count
        && disk == (if |pieces| == count then written
                    else R.WriteFile(written, R.PullDir(now), |pieces|, Leftover(obtain, writes, |pieces|)))
        && r == if |pieces| == count then Ok(())
                else if obtain(|pieces|).None? then Err(R.SourceFailed)
                else Err(R.DiskError)
    {
      ghost var kept := Kept(obtain, writes);
      ghost var all := UntilFailure(kept, 0, count);
      ghost var done: seq<Bytes> := [];
      for index := 0 to count
        invariant |done| == index && all == done + UntilFailure(kept, index, count)
        invariant disk == R.WriteFiles(old(disk), R.PullDir(now), done)
      {
        UntilFailureTurn(kept, index, count, done, all);
        var piece := obtain(index);
        if piece.None? { return Err(R.SourceFailed); }
        disk := R.WriteFile(disk, R.PullDir(now), index, R.LeftBy(writes(index), piece.value));
        if !writes(index).Whole? { return Err(R.DiskError); }
        R.WriteOneMore(old(disk), R.PullDir(now), done, piece.value);
        done := done + [piece.value];
      }
      assert done + [] == done;
      return Ok(());
    }
  }
}
