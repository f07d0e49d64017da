/** The HTTP handlers of the file protocol: who may call, what the settings allow, and the hub call behind it. */
module Routes {
  import opened Prelude
  import opened HubModel
  import opened Forwarding
  import opened Secure
  import R = RelaySpec
  import S = SettingsSpec

  datatype RouteError =
    | MissingAppInstanceId
    | AppInstanceMismatch
    | DecryptFail
    | MalformedBody
    | Refused(gate: S.GateError)
    | BadRequest(relay: R.RelayError)

  /** The identity headers of a request, and whether it carries the secure header. */
  datatype Caller = Caller(appInstanceId: Option<ClientId>, target: Option<string>, secure: bool)

  /** `require_paired_client`: the caller names itself, means this server, and is paired. */
  function RequirePairedClient(caller: Caller, serverId: string, paired: set<ClientId>): Result<ClientId, RouteError> {
    if caller.appInstanceId.None? then Err(MissingAppInstanceId)
    else if caller.target != Some(serverId) then Err(AppInstanceMismatch)
    else if caller.appInstanceId.value !in paired then Err(DecryptFail)
    else Ok(caller.appInstanceId.value)
  }

  /** Only a paired client that names itself and means this server gets past the check; else the first thing amiss. */
  lemma CallerIsCheckedExactly(caller: Caller, serverId: string, paired: set<ClientId>)
    ensures
      var r := RequirePairedClient(caller, serverId, paired);
      && (r.Ok? ==> caller.appInstanceId == Some(r.value))
      && (r.Ok? <==> caller.target == Some(serverId) && exists id :: id in paired && caller.appInstanceId == Some(id))
      && (r == Err(MissingAppInstanceId) <==> caller.appInstanceId == None)
      && (r == Err(AppInstanceMismatch) <==> caller.appInstanceId != None && caller.target != Some(serverId))
  {
  }

  /** `maybe_decrypt_body`, then the JSON parser: what a request with the secure header or without it asks for. */
  function OpenBody<T>(suite: Suite, onFile: Option<Bytes>, secure: bool, body: Bytes, parse: Bytes -> Option<T>)
    : Result<T, RouteError>
  {
    match if secure then DecryptFor(suite, onFile, body) else Ok(body)
    case Err(_) => Err(DecryptFail)
    case Ok(plain) =>
      match parse(plain)
      case None => Err(MalformedBody)
      case Some(request) => Ok(request)
  }

  /** A body encrypted under the key on file, sent with the secure header, says what it would say in the clear. */
  lemma SecureBodyIsOpened<T>(suite: Suite, onFile: Option<Bytes>, plain: Bytes, iv: Block, parse: Bytes -> Option<T>)
    requires Bijective(suite) && EncryptFor(suite, onFile, plain, iv).Ok?
    ensures OpenBody(suite, onFile, true, EncryptFor(suite, onFile, plain, iv).value, parse) ==
            OpenBody(suite, onFile, false, plain, parse)
  {
    EncryptForRoundTrip(suite, onFile, plain, iv);
  }

  /** What a body is refused for: it does not decrypt, or it does not parse. */
  lemma BodyIsRefusedExactly<T>(suite: Suite, onFile: Option<Bytes>, secure: bool, body: Bytes,
                                parse: Bytes -> Option<T>)
    ensures
      var r := OpenBody(suite, onFile, secure, body, parse);
      && (r == Err(DecryptFail) <==> secure && DecryptFor(suite, onFile, body).Err?)
      && (!secure ==> r == match parse(body) case None => Err(MalformedBody) case Some(request) => Ok(request))
  {
  }

  /** Opening a request's body in the hub. */
  method OpenRequest<T>(hub: Hub, client: ClientId, secure: bool, body: Bytes, parse: Bytes -> Option<T>)
    returns (r: Result<T, RouteError>)
    ensures r == OpenBody(hub.suite, Lookup(hub.clientCryptKeys, client), secure, body, parse)
  {
    var plain := body;
    if secure {
      var decrypted := hub.DecryptFromClient(client, body);
      if decrypted.Err? { return Err(DecryptFail); }
      plain := decrypted.value;
    }
    var request := parse(plain);
    if request.None? { return Err(MalformedBody); }
    return Ok(request.value);
  }

  /**
   * The push branch of `/sync/paste`: nothing is prepared unless the caller is paired, its body can be read, and the
   * settings let the paste through.
   */
  method SyncPastePush(hub: Hub, serverId: string, caller: Caller, body: Bytes, parse: Bytes -> Option<R.Paste>,
                       now: int, token: string, diskOk: bool)
    returns (r: Result<R.PrepareResponse, RouteError>)
    requires hub.Valid()
    modifies hub`pushSessions
    ensures hub.Valid()
    ensures
      match RequirePairedClient(caller, serverId, hub.clients.Keys)
      case Err(e) => r == Err(e) && hub.Files() == old(hub.Files())
      case Ok(client) =>
        match OpenBody(hub.suite, Lookup(hub.clientCryptKeys, client), caller.secure, body, parse)
        case Err(e) => r == Err(e) && hub.Files() == old(hub.Files())
        case Ok(paste) =>
          match S.EnforceSyncSettings(hub.database.settings, paste)
          case Err(e) => r == Err(Refused(e)) && hub.Files() == old(hub.Files())
          case Ok(_) =>
            var (files, prepared) := R.Prepare(old(hub.Files()), client, true, paste, now, token, diskOk);
            && hub.Files() == files
            && r == match prepared case Err(e) => Err(BadRequest(e)) case Ok(response) => Ok(response)
  {
    var client := RequirePairedClient(caller, serverId, hub.clients.Keys);
    if client.Err? { return Err(client.error); }
    var paste := OpenRequest(hub, client.value, caller.secure, body, parse);
    if paste.Err? { return Err(paste.error); }
    var gate := S.EnforceSyncSettings(hub.database.settings, paste.value);
    if gate.Err? { return Err(Refused(gate.error)); }
    var prepared := hub.PreparePush(client.value, paste.value, now, token, diskOk);
    if prepared.Err? { return Err(BadRequest(prepared.error)); }
    return Ok(prepared.value);
  }

  /** `/sync/paste/push/complete`: a fan-out task is spawned exactly when this call closed the session. */
  method SyncPushComplete(hub: Hub, serverId: string, caller: Caller, pasteId: int, token: string)
    returns (r: Result<seq<nat>, RouteError>, spawned: Option<R.Completed>)
    requires hub.Valid()
    modifies hub`pushSessions
    ensures hub.Valid()
    ensures
      match RequirePairedClient(caller, serverId, hub.clients.Keys)
      case Err(e) => r == Err(e) && spawned.None? && hub.Files() == old(hub.Files())
      case Ok(client) =>
        var (files, completed) := R.Complete(old(hub.Files()), client, pasteId, token);
        && hub.Files() == files
        && match completed
           case Err(e) => r == Err(BadRequest(e)) && spawned.None?
           case Ok((missing, done)) => r == Ok(missing) && spawned == done
    ensures spawned.Some? <==> pasteId in old(hub.Files()).sessions && pasteId !in hub.Files().sessions
  {
    spawned := None;
    var client := RequirePairedClient(caller, serverId, hub.clients.Keys);
    if client.Err? { return Err(client.error), None; }
    var completed := hub.CompletePush(client.value, pasteId, token);
    if completed.Err? { return Err(BadRequest(completed.error)), None; }
    return Ok(completed.value.0), completed.value.1;
  }

  datatype PullRequest = PullRequest(id: int, chunkIndex: nat)

  /**
   * `/pull/file`: the chunk as stored, or, when the caller asks for it, as an encrypted stream.  A key that opened the
   * request can also encrypt the reply, so that step never fails.
   */
  method PullFile(hub: Hub, serverId: string, caller: Caller, body: Bytes, parse: Bytes -> Option<PullRequest>,
                  queryOk: bool, ivs: nat -> Block)
    returns (r: Result<Bytes, RouteError>)
    requires hub.Valid()
    ensures
      match RequirePairedClient(caller, serverId, hub.clients.Keys)
      case Err(e) => r == Err(e)
      case Ok(client) =>
        match OpenBody(hub.suite, Lookup(hub.clientCryptKeys, client), caller.secure, body, parse)
        case Err(e) => r == Err(e)
        case Ok(request) =>
          if !queryOk then r == Err(BadRequest(R.DatabaseError))
          else
            match R.ReadFileChunk(hub.Files(), request.id, request.chunkIndex)
            case Err(e) => r == Err(BadRequest(e))
            case Ok(bytes) =>
              if !caller.secure then r == Ok(bytes)
              else
                var stream := EncodeStreamFor(hub.suite, Lookup(hub.clientCryptKeys, client), bytes, ivs);
                stream.Ok? && r == Ok(stream.value)
  {
    var client := RequirePairedClient(caller, serverId, hub.clients.Keys);
    if client.Err? { return Err(client.error); }
    var request := OpenRequest(hub, client.value, caller.secure, body, parse);
    if request.Err? { return Err(request.error); }
    var bytes := hub.ReadFileChunk(request.value.id, request.value.chunkIndex, queryOk);
    if bytes.Err? { return Err(BadRequest(bytes.error)); }
    if !caller.secure { return Ok(bytes.value); }
    var stream := hub.EncryptStreamForClient(client.value, bytes.value, ivs);
    return Ok(stream.value);
  }
}
