/**
 * The tunnel registry as a state machine on values.  Sessions that were replaced or unregistered stay in
 * `sessions`: a waiting proxy call still holds them.  Every call has a one-shot channel, its `slot`.
 */
module RegistrySpec {
  import opened Prelude
  import opened Text

  type AppId = string
  type SessionId = string
  type RequestId = string
  type SocketId = nat

  const REPLACED := "session replaced by a new connection"
  const DISCONNECTED := "device disconnected"
  const ID_REQUIRED := "app_instance_id required"

  datatype Frame =
    | HelloAck(sessionId: SessionId)
    | Ping(ts: int)
    | Pong(ts: int)
    | HttpRequest(requestId: RequestId, payload: string)
    | HttpResponse(requestId: RequestId, payload: string)
    | Error(message: string)

  datatype Config = Config(maxInflight: nat, deviceTtlMs: int)

  datatype Session = Session(app: AppId, socket: SocketId, lastSeenMs: int, pending: set<RequestId>)

  /** A socket task: its outgoing channel, and the two locals it remembers from its latest hello. */
  datatype Socket = Socket(live: bool, open: bool, sent: seq<Frame>, app: Option<AppId>, sessionId: Option<SessionId>)

  datatype Outcome = Delivered(frame: Frame) | TimedOut | ChannelClosed

  /** `outcome` is None while the proxy call waits at its await. */
  datatype Call = Call(sessionId: SessionId, slot: Option<Frame>, outcome: Option<Outcome>)

  datatype Registry = Registry(
    devices: map<AppId, SessionId>,
    sessions: map<SessionId, Session>,
    sockets: map<SocketId, Socket>,
    calls: map<RequestId, Call>)

  const EMPTY: Registry := Registry(map[], map[], map[], map[])

  // ---------- Small pieces ----------

  predicate CanSend(r: Registry, socket: SocketId) {
    socket in r.sockets && r.sockets[socket].open
  }

  function Send(r: Registry, socket: SocketId, frame: Frame): Registry {
    if CanSend(r, socket) then
      r.(sockets := r.sockets[socket := r.sockets[socket].(sent := r.sockets[socket].sent + [frame])])
    else r
  }

  function SetPending(r: Registry, sid: SessionId, pending: set<RequestId>): Registry
    requires sid in r.sessions
  {
    r.(sessions := r.sessions[sid := r.sessions[sid].(pending := pending)])
  }

  function TouchSession(r: Registry, sid: SessionId, now: int): Registry {
    if sid in r.sessions then r.(sessions := r.sessions[sid := r.sessions[sid].(lastSeenMs := now)]) else r
  }

  function Answer(calls: map<RequestId, Call>, answered: set<RequestId>, frame: Frame): map<RequestId, Call> {
    map q | q in calls :: if q in answered then calls[q].(slot := Some(frame)) else calls[q]
  }

  lemma AnswerNone(calls: map<RequestId, Call>, frame: Frame)
    ensures Answer(calls, {}, frame) == calls
  {
  }

  lemma AnswerOne(calls: map<RequestId, Call>, answered: set<RequestId>, q: RequestId, frame: Frame)
    requires q in calls
    ensures Answer(calls, answered + {q}, frame) == Answer(calls, answered, frame)[q := calls[q].(slot := Some(frame))]
  {
  }

  lemma AnswerTwice(calls: map<RequestId, Call>, a: set<RequestId>, b: set<RequestId>, frame: Frame)
    ensures Answer(Answer(calls, a, frame), b, frame) == Answer(calls, a + b, frame)
  {
  }

  /** The session currently registered for a device. */
  function Current(r: Registry, app: AppId): Option<SessionId> {
    if app in r.devices && r.devices[app] in r.sessions then Some(r.devices[app]) else None
  }

  predicate IsRegistered(r: Registry, sid: SessionId) {
    sid in r.sessions && Lookup(r.devices, r.sessions[sid].app) == Some(sid)
  }

  // ---------- Registry calls ----------

  function RegisterDevice(r: Registry, app: AppId, sid: SessionId, socket: SocketId, now: int): Registry {
    var notified := match Current(r, app)
                    case None => r
                    case Some(previous) => Send(r, r.sessions[previous].socket, Error(REPLACED));
    notified.(devices := r.devices[app := sid], sessions := r.sessions[sid := Session(app, socket, now, {})])
  }

  function UnregisterDevice(r: Registry, app: AppId, sid: SessionId): Registry {
    if Current(r, app) != Some(sid) then r
    else
      var answered := Answer(r.calls, r.sessions[sid].pending, Error(DISCONNECTED));
      var removed := r.(devices := r.devices - {app}, calls := answered);
      SetPending(removed, sid, {})
  }

  function TouchDevice(r: Registry, app: AppId, now: int): Registry {
    match Current(r, app)
    case None => r
    case Some(sid) => TouchSession(r, sid, now)
  }

  function CompleteRequest(r: Registry, app: AppId, frame: Frame): Registry {
    match (frame, Current(r, app))
    case (HttpResponse(q, _), Some(sid)) =>
      if q in r.sessions[sid].pending then
        SetPending(r.(calls := Answer(r.calls, {q}, frame)), sid, r.sessions[sid].pending - {q})
      else r
    case _ => r
  }

  datatype Started = Waiting | DeviceOffline | DeviceBusy

  /** `proxy_http` up to its await. */
  function StartProxy(cfg: Config, r: Registry, target: AppId, q: RequestId, payload: string, now: int)
    : (Registry, Started)
  {
    match Current(r, target)
    case None => (r, DeviceOffline)
    case Some(sid) =>
      var session := r.sessions[sid];
      if |session.pending| >= cfg.maxInflight then (r, DeviceBusy)
      else
        var touched := TouchSession(r, sid, now);
        if !CanSend(r, session.socket) then (touched, DeviceOffline)
        else
          var waiting := SetPending(touched, sid, session.pending + {q}).(calls := r.calls[q := Call(sid, None, None)]);
          (Send(waiting, session.socket, HttpRequest(q, payload)), Waiting)
  }

  /**
   * `proxy_http` from its await on.  The channel is polled before the timer, so a frame that is there wins;
   * a sender that is gone without a frame closes the channel; otherwise the call ends only when time is up.
   */
  function AwaitProxy(r: Registry, q: RequestId, expired: bool): (Registry, Option<Outcome>)
    requires q in r.calls
  {
    var call := r.calls[q];
    if call.slot.Some? then
      var outcome := Some(Delivered(call.slot.value));
      (r.(calls := r.calls[q := call.(outcome := outcome)]), outcome)
    else if call.sessionId in r.sessions && q in r.sessions[call.sessionId].pending then
      if !expired then (r, None)
      else
        var removed := SetPending(r, call.sessionId, r.sessions[call.sessionId].pending - {q});
        (removed.(calls := r.calls[q := call.(outcome := Some(TimedOut))]), Some(TimedOut))
    else
      (r.(calls := r.calls[q := call.(outcome := Some(ChannelClosed))]), Some(ChannelClosed))
  }

  /** The first phase of garbage collection: the sessions not seen for longer than the limit. */
  function Stale(cfg: Config, r: Registry, now: int): set<(AppId, SessionId)> {
    set app | app in r.devices && r.devices[app] in r.sessions
              && now - r.sessions[r.devices[app]].lastSeenMs > cfg.deviceTtlMs :: (app, r.devices[app])
  }

  /** Each device's session exists and is its own. */
  ghost predicate DevicesOk(r: Registry) {
    forall app <- r.devices :: r.devices[app] in r.sessions && r.sessions[r.devices[app]].app == app
  }

  /** The requests pending in these sessions. */
  function PendingOf(r: Registry, sids: set<SessionId>): set<RequestId> {
    set sid, q | sid in sids && sid in r.sessions && q in r.sessions[sid].pending :: q
  }

  /** A garbage collection in one go: the listed sessions lose their registration and answer everything pending. */
  function Collect(r: Registry, doomed: set<(AppId, SessionId)>): Registry {
    var sids := set p | p in doomed :: p.1;
    r.(devices := map app | app in r.devices && (app, r.devices[app]) !in doomed :: r.devices[app],
       sessions := map sid | sid in r.sessions ::
                     if sid in sids then r.sessions[sid].(pending := {}) else r.sessions[sid],
       calls := Answer(r.calls, PendingOf(r, sids), Error(DISCONNECTED)))
  }

  /** Evicting the listed sessions one after another, in any order, collects them all. */
  lemma CollectOneMore(r: Registry, doomed: set<(AppId, SessionId)>, app: AppId, sid: SessionId)
    requires DevicesOk(r)
    requires forall p <- doomed :: Lookup(r.devices, p.0) == Some(p.1)
    requires Lookup(r.devices, app) == Some(sid) && (app, sid) !in doomed
    ensures UnregisterDevice(Collect(r, doomed), app, sid) == Collect(r, doomed + {(app, sid)})
  {
    var sids := set p | p in doomed :: p.1;
    var more := doomed + {(app, sid)};
    assert (set p | p in more :: p.1) == sids + {sid};
    assert sid !in sids by {
      forall p | p in doomed ensures p.1 != sid {
        assert r.sessions[p.1].app == p.0;
      }
    }
    var before, after := UnregisterDevice(Collect(r, doomed), app, sid), Collect(r, more);
    assert before.devices == after.devices;
    assert before.sessions == after.sessions;
    var first, second := PendingOf(r, sids), PendingOf(r, {sid});
    assert PendingOf(r, sids + {sid}) == first + second && second == r.sessions[sid].pending;
    AnswerTwice(r.calls, first, second, Error(DISCONNECTED));
  }

  lemma CollectNothing(r: Registry)
    ensures Collect(r, {}) == r
  {
  }

  // ---------- The socket task ----------

  function Connect(r: Registry, socket: SocketId): Registry {
    r.(sockets := r.sockets[socket := Socket(true, true, [], None, None)])
  }

  function OnHello(r: Registry, socket: SocketId, app: AppId, sid: SessionId, now: int): Registry {
    if Trim(app) == [] then Send(r, socket, Error(ID_REQUIRED))
    else
      var registered := RegisterDevice(r, app, sid, socket, now);
      if socket !in registered.sockets then registered
      else
        var remembered := registered.sockets[socket].(app := Some(app), sessionId := Some(sid));
        Send(registered.(sockets := registered.sockets[socket := remembered]), socket, HelloAck(sid))
  }

  function LocalApp(r: Registry, socket: SocketId): Option<AppId> {
    if socket in r.sockets then r.sockets[socket].app else None
  }

  function OnPong(r: Registry, socket: SocketId, now: int): Registry {
    match LocalApp(r, socket)
    case None => r
    case Some(app) => TouchDevice(r, app, now)
  }

  function OnPing(r: Registry, socket: SocketId, ts: int, now: int): Registry {
    OnPong(Send(r, socket, Pong(ts)), socket, now)
  }

  function OnResponse(r: Registry, socket: SocketId, q: RequestId, payload: string): Registry {
    match LocalApp(r, socket)
    case None => r
    case Some(app) => CompleteRequest(r, app, HttpResponse(q, payload))
  }

  function WriterStops(r: Registry, socket: SocketId): Registry {
    if socket in r.sockets then r.(sockets := r.sockets[socket := r.sockets[socket].(open := false)]) else r
  }

  /** The receive loop ends: the remembered session is unregistered, then the writer is stopped. */
  function OnClose(r: Registry, socket: SocketId): Registry {
    if socket !in r.sockets then r
    else
      var s := r.sockets[socket];
      var unregistered := if s.app.Some? && s.sessionId.Some?
                          then UnregisterDevice(r, s.app.value, s.sessionId.value) else r;
      unregistered.(sockets := r.sockets[socket := s.(live := false, open := false)])
  }
}
