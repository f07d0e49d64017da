/** Whole runs of the registry: every interleaving of sockets, proxy calls, timeouts and garbage collection. */
module RegistryRuns {
  import opened Prelude
  import opened Text
  import opened RegistrySpec

  datatype Op =
    | ConnectOp(socket: SocketId)
    | HelloOp(socket: SocketId, app: AppId, sid: SessionId, now: int)
    | PingOp(socket: SocketId, ts: int, now: int)
    | PongOp(socket: SocketId, now: int)
    | ResponseOp(socket: SocketId, q: RequestId, payload: string)
    | NoticeOp(socket: SocketId, frame: Frame)
    | WriterStopsOp(socket: SocketId)
    | CloseOp(socket: SocketId)
    | StartOp(target: AppId, q: RequestId, payload: string, now: int)
    | AwaitOp(q: RequestId, expired: bool)
    | SnapshotOp(now: int)
    | EvictOp(app: AppId, sid: SessionId)

  /** `doomed` holds what garbage collections have listed for eviction so far. */
  datatype World = World(reg: Registry, doomed: set<(AppId, SessionId)>)

  function Step(cfg: Config, w: World, op: Op): World
    requires Enabled(w, op)
  {
    var r := w.reg;
    match op
    case ConnectOp(socket) => w.(reg := Connect(r, socket))
    case HelloOp(socket, app, sid, now) => w.(reg := OnHello(r, socket, app, sid, now))
    case PingOp(socket, ts, now) => w.(reg := OnPing(r, socket, ts, now))
    case PongOp(socket, now) => w.(reg := OnPong(r, socket, now))
    case ResponseOp(socket, q, payload) => w.(reg := OnResponse(r, socket, q, payload))
    case NoticeOp(socket, frame) => w.(reg := Send(r, socket, frame))
    case WriterStopsOp(socket) => w.(reg := WriterStops(r, socket))
    case CloseOp(socket) => w.(reg := OnClose(r, socket))
    case StartOp(target, q, payload, now) => w.(reg := StartProxy(cfg, r, target, q, payload, now).0)
    case AwaitOp(q, expired) => w.(reg := AwaitProxy(r, q, expired).0)
    case SnapshotOp(now) => w.(doomed := w.doomed + Stale(cfg, r, now))
    case EvictOp(app, sid) => w.(reg := UnregisterDevice(r, app, sid))
  }

  /** UUIDs are fresh, only live sockets receive, only waiting calls resume, only listed sessions are evicted. */
  predicate Enabled(w: World, op: Op) {
    match op
    case ConnectOp(socket) => socket !in w.reg.sockets
    case HelloOp(socket, _, sid, _) => IsLive(w.reg, socket) && sid !in w.reg.sessions
    case PingOp(socket, _, _) => IsLive(w.reg, socket)
    case PongOp(socket, _) => IsLive(w.reg, socket)
    case ResponseOp(socket, _, _) => IsLive(w.reg, socket)
    case NoticeOp(socket, frame) => IsLive(w.reg, socket) && (frame.Pong? || frame.Error?)
    case WriterStopsOp(socket) => socket in w.reg.sockets
    case CloseOp(socket) => IsLive(w.reg, socket)
    case StartOp(_, q, _, _) => q !in w.reg.calls
    case AwaitOp(q, _) => IsWaiting(w.reg, q)
    case SnapshotOp(_) => true
    case EvictOp(app, sid) => (app, sid) in w.doomed
  }

  predicate IsLive(r: Registry, socket: SocketId) {
    socket in r.sockets && r.sockets[socket].live
  }

  predicate IsWaiting(r: Registry, q: RequestId) {
    q in r.calls && r.calls[q].outcome.None?
  }

  /** The world after a run, or None if some step was not possible. */
  function Run(cfg: Config, ops: seq<Op>): Option<World> {
    if ops == [] then Some(World(EMPTY, {}))
    else
      match Run(cfg, ops[..|ops| - 1])
      case None => None
      case Some(w) => if Enabled(w, ops[|ops| - 1]) then Some(Step(cfg, w, ops[|ops| - 1])) else None
  }

  // ---------- The invariant ----------

  /** Each session has a socket, keeps to the in-flight limit, and holds responders only of its own waiting calls. */
  ghost predicate SessionsOk(cfg: Config, r: Registry) {
    forall sid <- r.sessions ::
      && r.sessions[sid].socket in r.sockets
      && |r.sessions[sid].pending| <= cfg.maxInflight
      && forall q <- r.sessions[sid].pending :: q in r.calls && r.calls[q] == Call(sid, None, None)
  }

  /** What a call's channel may hold: its own response, or the disconnect error of its own, now gone, session. */
  ghost predicate FrameOk(r: Registry, q: RequestId, sid: SessionId, frame: Frame) {
    || (frame.HttpResponse? && frame.requestId == q)
    || (frame == Error(DISCONNECTED) && !IsRegistered(r, sid))
  }

  ghost predicate CallOk(r: Registry, q: RequestId, call: Call) {
    && call.sessionId in r.sessions
    && (call.slot.Some? ==> FrameOk(r, q, call.sessionId, call.slot.value))
    && match call.outcome
       case None => call.slot.None? ==> q in r.sessions[call.sessionId].pending
       case Some(Delivered(frame)) => call.slot == Some(frame)
       case Some(TimedOut) => call.slot.None?
       case Some(ChannelClosed) => false
  }

  ghost predicate CallsOk(r: Registry) {
    forall q <- r.calls :: CallOk(r, q, r.calls[q])
  }

  /** What a socket remembers is a session that it opened itself. */
  ghost predicate SocketsOk(r: Registry) {
    forall k <- r.sockets ::
      var s := r.sockets[k];
      && (s.app.Some? <==> s.sessionId.Some?)
      && (s.sessionId.Some? ==>
            && s.sessionId.value in r.sessions
            && r.sessions[s.sessionId.value].app == s.app.value
            && r.sessions[s.sessionId.value].socket == k)
  }

  ghost predicate Inv(cfg: Config, r: Registry) {
    DevicesOk(r) && SessionsOk(cfg, r) && CallsOk(r) && SocketsOk(r)
  }

  lemma SendKeepsInv(cfg: Config, r: Registry, socket: SocketId, frame: Frame)
    requires Inv(cfg, r)
    ensures Inv(cfg, Send(r, socket, frame))
  {
  }

  lemma TouchKeepsInv(cfg: Config, r: Registry, sid: SessionId, now: int)
    requires Inv(cfg, r)
    ensures Inv(cfg, TouchSession(r, sid, now))
  {
    var r' := TouchSession(r, sid, now);
    forall q | q in r'.calls ensures CallOk(r', q, r'.calls[q]) {
      assert CallOk(r, q, r.calls[q]);
    }
  }

  lemma RegisterKeepsCalls(r: Registry, app: AppId, sid: SessionId, socket: SocketId, now: int)
    requires CallsOk(r) && sid !in r.sessions
    ensures CallsOk(RegisterDevice(r, app, sid, socket, now))
  {
    var r' := RegisterDevice(r, app, sid, socket, now);
    forall q | q in r'.calls ensures CallOk(r', q, r'.calls[q]) {
      assert CallOk(r, q, r.calls[q]);
    }
  }

  lemma RegisterKeepsSockets(r: Registry, app: AppId, sid: SessionId, socket: SocketId, now: int)
    requires SocketsOk(r) && sid !in r.sessions
    ensures SocketsOk(RegisterDevice(r, app, sid, socket, now))
  {
  }

  lemma RegisterKeepsInv(cfg: Config, r: Registry, app: AppId, sid: SessionId, socket: SocketId, now: int)
    requires Inv(cfg, r) && sid !in r.sessions && socket in r.sockets
    ensures Inv(cfg, RegisterDevice(r, app, sid, socket, now))
  {
    RegisterKeepsCalls(r, app, sid, socket, now);
    RegisterKeepsSockets(r, app, sid, socket, now);
    var r' := RegisterDevice(r, app, sid, socket, now);
    assert SessionsOk(cfg, r') && DevicesOk(r');
  }

  lemma UnregisterKeepsCalls(cfg: Config, r: Registry, app: AppId, sid: SessionId)
    requires Inv(cfg, r)
    ensures CallsOk(UnregisterDevice(r, app, sid))
  {
    var r' := UnregisterDevice(r, app, sid);
    forall q | q in r'.calls ensures CallOk(r', q, r'.calls[q]) {
      assert CallOk(r, q, r.calls[q]);
    }
  }

  lemma UnregisterKeepsInv(cfg: Config, r: Registry, app: AppId, sid: SessionId)
    requires Inv(cfg, r)
    ensures Inv(cfg, UnregisterDevice(r, app, sid))
  {
    UnregisterKeepsCalls(cfg, r, app, sid);
    var r' := UnregisterDevice(r, app, sid);
    assert r'.sessions.Keys == r.sessions.Keys;
  }

  lemma CompleteKeepsInv(cfg: Config, r: Registry, app: AppId, frame: Frame)
    requires Inv(cfg, r)
    ensures Inv(cfg, CompleteRequest(r, app, frame))
  {
    var r' := CompleteRequest(r, app, frame);
    forall q | q in r'.calls ensures CallOk(r', q, r'.calls[q]) {
      assert CallOk(r, q, r.calls[q]);
    }
  }

  function AddCall(r: Registry, sid: SessionId, q: RequestId): Registry
    requires sid in r.sessions
  {
    SetPending(r, sid, r.sessions[sid].pending + {q}).(calls := r.calls[q := Call(sid, None, None)])
  }

  lemma AddCallKeepsCalls(r: Registry, sid: SessionId, q: RequestId)
    requires CallsOk(r) && sid in r.sessions && q !in r.calls
    ensures CallsOk(AddCall(r, sid, q))
  {
    var r' := AddCall(r, sid, q);
    forall p | p in r'.calls ensures CallOk(r', p, r'.calls[p]) {
      if p != q { assert CallOk(r, p, r.calls[p]); }
    }
  }

  lemma AddCallKeepsInv(cfg: Config, r: Registry, sid: SessionId, q: RequestId)
    requires Inv(cfg, r) && sid in r.sessions && q !in r.calls
    requires |r.sessions[sid].pending| < cfg.maxInflight
    ensures Inv(cfg, AddCall(r, sid, q))
  {
    AddCallKeepsCalls(r, sid, q);
    var r' := AddCall(r, sid, q);
    assert r'.sessions.Keys == r.sessions.Keys;
  }

  lemma StartKeepsInv(cfg: Config, r: Registry, target: AppId, q: RequestId, payload: string, now: int)
    requires Inv(cfg, r) && q !in r.calls
    ensures Inv(cfg, StartProxy(cfg, r, target, q, payload, now).0)
  {
    match Current(r, target)
    case None =>
    case Some(sid) =>
      TouchKeepsInv(cfg, r, sid, now);
      var touched := TouchSession(r, sid, now);
      if StartProxy(cfg, r, target, q, payload, now).1.Waiting? {
        var pending := r.sessions[sid].pending;
        assert touched.sessions[sid].pending == pending && touched.calls == r.calls;
        AddCallKeepsInv(cfg, touched, sid, q);
        SendKeepsInv(cfg, AddCall(touched, sid, q), r.sessions[sid].socket, HttpRequest(q, payload));
      }
  }

  lemma DeliverKeepsInv(cfg: Config, r: Registry, q: RequestId)
    requires Inv(cfg, r) && IsWaiting(r, q) && r.calls[q].slot.Some?
    ensures Inv(cfg, r.(calls := r.calls[q := r.calls[q].(outcome := Some(Delivered(r.calls[q].slot.value)))]))
  {
    var r' := r.(calls := r.calls[q := r.calls[q].(outcome := Some(Delivered(r.calls[q].slot.value)))]);
    assert CallOk(r, q, r.calls[q]);
    forall p | p in r'.calls ensures CallOk(r', p, r'.calls[p]) {
      assert CallOk(r, p, r.calls[p]);
    }
    assert SessionsOk(cfg, r') && DevicesOk(r') && SocketsOk(r');
  }

  function Expire(r: Registry, q: RequestId, sid: SessionId): Registry
    requires q in r.calls && sid in r.sessions
  {
    SetPending(r, sid, r.sessions[sid].pending - {q}).(calls := r.calls[q := r.calls[q].(outcome := Some(TimedOut))])
  }

  lemma ExpireKeepsCalls(r: Registry, q: RequestId, sid: SessionId)
    requires CallsOk(r) && IsWaiting(r, q) && r.calls[q].slot.None? && sid in r.sessions
    ensures CallsOk(Expire(r, q, sid))
  {
    var r' := Expire(r, q, sid);
    forall p | p in r'.calls ensures CallOk(r', p, r'.calls[p]) {
      assert CallOk(r, p, r.calls[p]);
    }
  }

  lemma ExpireKeepsInv(cfg: Config, r: Registry, q: RequestId)
    requires Inv(cfg, r) && IsWaiting(r, q) && r.calls[q].slot.None?
    ensures r.calls[q].sessionId in r.sessions && Inv(cfg, Expire(r, q, r.calls[q].sessionId))
  {
    assert CallOk(r, q, r.calls[q]);
    var sid := r.calls[q].sessionId;
    ExpireKeepsCalls(r, q, sid);
    var r' := Expire(r, q, sid);
    assert r'.sessions.Keys == r.sessions.Keys;
  }

  /** A waiting call always has a live sender or a frame: its channel cannot be found closed. */
  lemma WaitingHasSenderOrFrame(cfg: Config, r: Registry, q: RequestId)
    requires Inv(cfg, r) && IsWaiting(r, q)
    ensures r.calls[q].sessionId in r.sessions
    ensures r.calls[q].slot.None? <==> q in r.sessions[r.calls[q].sessionId].pending
    ensures forall sid <- r.sessions :: q in r.sessions[sid].pending ==> sid == r.calls[q].sessionId
  {
    assert CallOk(r, q, r.calls[q]);
  }

  lemma AwaitKeepsInv(cfg: Config, r: Registry, q: RequestId, expired: bool)
    requires Inv(cfg, r) && IsWaiting(r, q)
    ensures Inv(cfg, AwaitProxy(r, q, expired).0)
  {
    WaitingHasSenderOrFrame(cfg, r, q);
    if r.calls[q].slot.Some? {
      DeliverKeepsInv(cfg, r, q);
    } else {
      ExpireKeepsInv(cfg, r, q);
    }
  }

  lemma StepKeepsInv(cfg: Config, w: World, op: Op)
    requires Inv(cfg, w.reg) && Enabled(w, op)
    ensures Inv(cfg, Step(cfg, w, op).reg)
  {
    var r := w.reg;
    match op
    case HelloOp(socket, app, sid, now) =>
      HelloKeepsInv(cfg, r, socket, app, sid, now);
    case PingOp(socket, ts, now) =>
      SendKeepsInv(cfg, r, socket, Pong(ts));
      TouchDeviceKeepsInv(cfg, Send(r, socket, Pong(ts)), socket, now);
    case PongOp(socket, now) =>
      TouchDeviceKeepsInv(cfg, r, socket, now);
    case ResponseOp(socket, q, payload) =>
      if LocalApp(r, socket).Some? {
        CompleteKeepsInv(cfg, r, LocalApp(r, socket).value, HttpResponse(q, payload));
      }
    case NoticeOp(socket, frame) =>
      SendKeepsInv(cfg, r, socket, frame);
    case CloseOp(socket) =>
      var s := r.sockets[socket];
      if s.app.Some? && s.sessionId.Some? {
        UnregisterKeepsInv(cfg, r, s.app.value, s.sessionId.value);
      }
    case StartOp(target, q, payload, now) =>
      StartKeepsInv(cfg, r, target, q, payload, now);
    case AwaitOp(q, expired) =>
      AwaitKeepsInv(cfg, r, q, expired);
    case EvictOp(app, sid) =>
      UnregisterKeepsInv(cfg, r, app, sid);
    case _ =>
  }

  lemma HelloKeepsInv(cfg: Config, r: Registry, socket: SocketId, app: AppId, sid: SessionId, now: int)
    requires Inv(cfg, r) && socket in r.sockets && sid !in r.sessions
    ensures Inv(cfg, OnHello(r, socket, app, sid, now))
  {
    SendKeepsInv(cfg, r, socket, Error(ID_REQUIRED));
    RegisterKeepsInv(cfg, r, app, sid, socket, now);
    var registered := RegisterDevice(r, app, sid, socket, now);
    var remembered := registered.sockets[socket].(app := Some(app), sessionId := Some(sid));
    var r' := registered.(sockets := registered.sockets[socket := remembered]);
    assert SocketsOk(r');
    assert Inv(cfg, r');
    SendKeepsInv(cfg, r', socket, HelloAck(sid));
  }

  lemma TouchDeviceKeepsInv(cfg: Config, r: Registry, socket: SocketId, now: int)
    requires Inv(cfg, r)
    ensures Inv(cfg, OnPong(r, socket, now))
  {
    if LocalApp(r, socket).Some? && Current(r, LocalApp(r, socket).value).Some? {
      TouchKeepsInv(cfg, r, Current(r, LocalApp(r, socket).value).value, now);
    }
  }

  lemma {:induction false} InvAlways(cfg: Config, ops: seq<Op>)
    requires Run(cfg, ops).Some?
    ensures Inv(cfg, Run(cfg, ops).value.reg)
    decreases |ops|
  {
    if ops != [] {
      InvAlways(cfg, ops[..|ops| - 1]);
      StepKeepsInv(cfg, Run(cfg, ops[..|ops| - 1]).value, ops[|ops| - 1]);
    }
  }

  // ---------- No lost waiter ----------

  /**
   * In every reachable state a waiting call either has its responder pending in exactly one session, the one it
   * was sent on, current or not, or has exactly one frame in its channel; never both and never neither.
   */
  lemma NoLostWaiter(cfg: Config, ops: seq<Op>, q: RequestId)
    requires Run(cfg, ops).Some? && IsWaiting(Run(cfg, ops).value.reg, q)
    ensures
      var r := Run(cfg, ops).value.reg;
      var home := r.calls[q].sessionId;
      && home in r.sessions
      && (r.calls[q].slot.None? <==> q in r.sessions[home].pending)
      && (forall sid <- r.sessions :: q in r.sessions[sid].pending ==> sid == home)
      && (forall sid <- r.sessions :: |r.sessions[sid].pending| <= cfg.maxInflight)
  {
    InvAlways(cfg, ops);
    WaitingHasSenderOrFrame(cfg, Run(cfg, ops).value.reg, q);
  }

  /**
   * What a resumed call returns.  With a frame in its channel, that frame, which is its own response or the
   * disconnect error of its own unregistered session, even when time is up; without one, a timeout or nothing yet.
   * In particular the branch "response channel closed" is unreachable.
   */
  lemma NoCrossDelivery(cfg: Config, ops: seq<Op>, q: RequestId, expired: bool)
    requires Run(cfg, ops).Some? && IsWaiting(Run(cfg, ops).value.reg, q)
    ensures
      var r := Run(cfg, ops).value.reg;
      match AwaitProxy(r, q, expired).1
      case None => r.calls[q].slot.None? && !expired
      case Some(TimedOut) => r.calls[q].slot.None? && expired
      case Some(ChannelClosed) => false
      case Some(Delivered(frame)) =>
        && r.calls[q].slot == Some(frame)
        && (|| (frame.HttpResponse? && frame.requestId == q)
            || (frame == Error(DISCONNECTED) && !IsRegistered(r, r.calls[q].sessionId)))
  {
    InvAlways(cfg, ops);
    var r := Run(cfg, ops).value.reg;
    WaitingHasSenderOrFrame(cfg, r, q);
    assert CallOk(r, q, r.calls[q]);
  }

  lemma StepKeepsOutcome(cfg: Config, w: World, op: Op, q: RequestId)
    requires Enabled(w, op) && q in w.reg.calls && w.reg.calls[q].outcome.Some?
    ensures q in Step(cfg, w, op).reg.calls
    ensures Step(cfg, w, op).reg.calls[q].outcome == w.reg.calls[q].outcome
  {
  }

  /** A call that has ended keeps its outcome for ever: exactly one outcome per call. */
  lemma {:induction false} OutcomeIsFinal(cfg: Config, ops: seq<Op>, more: seq<Op>, q: RequestId)
    requires Run(cfg, ops).Some? && Run(cfg, ops + more).Some?
    requires q in Run(cfg, ops).value.reg.calls && Run(cfg, ops).value.reg.calls[q].outcome.Some?
    ensures q in Run(cfg, ops + more).value.reg.calls
    ensures Run(cfg, ops + more).value.reg.calls[q].outcome == Run(cfg, ops).value.reg.calls[q].outcome
    decreases |more|
  {
    if more == [] {
      assert ops + more == ops;
    } else {
      assert (ops + more)[..|ops + more| - 1] == ops + more[..|more| - 1];
      OutcomeIsFinal(cfg, ops, more[..|more| - 1], q);
      StepKeepsOutcome(cfg, Run(cfg, ops + more[..|more| - 1]).value, more[|more| - 1], q);
    }
  }

  // ---------- Conservation of calls ----------

  function WaitingCalls(r: Registry): set<RequestId> {
    set q | q in r.calls && r.calls[q].outcome.None?
  }

  predicate StartsCall(cfg: Config, w: World, op: Op) {
    op.StartOp? && StartProxy(cfg, w.reg, op.target, op.q, op.payload, op.now).1.Waiting?
  }

  predicate EndsCall(w: World, op: Op)
    requires Enabled(w, op)
  {
    op.AwaitOp? && AwaitProxy(w.reg, op.q, op.expired).1.Some?
  }

  function StartedCount(cfg: Config, ops: seq<Op>): nat
    requires Run(cfg, ops).Some?
  {
    if ops == [] then 0
    else
      var before, op := ops[..|ops| - 1], ops[|ops| - 1];
      StartedCount(cfg, before) + (if StartsCall(cfg, Run(cfg, before).value, op) then 1 else 0)
  }

  function EndedCount(cfg: Config, ops: seq<Op>): nat
    requires Run(cfg, ops).Some?
  {
    if ops == [] then 0
    else
      var before, op := ops[..|ops| - 1], ops[|ops| - 1];
      EndedCount(cfg, before) + (if EndsCall(Run(cfg, before).value, op) then 1 else 0)
  }

  lemma StepMovesWaiting(cfg: Config, w: World, op: Op)
    requires Enabled(w, op)
    ensures
      var before, after := WaitingCalls(w.reg), WaitingCalls(Step(cfg, w, op).reg);
      if StartsCall(cfg, w, op) then op.q !in before && after == before + {op.q}
      else if EndsCall(w, op) then op.q in before && after == before - {op.q}
      else after == before
  {
  }

  /** In every run, the calls started are the calls ended plus the calls still waiting. */
  lemma {:induction false} CallsAreConserved(cfg: Config, ops: seq<Op>)
    requires Run(cfg, ops).Some?
    ensures StartedCount(cfg, ops) == EndedCount(cfg, ops) + |WaitingCalls(Run(cfg, ops).value.reg)|
    decreases |ops|
  {
    if ops == [] {
      assert WaitingCalls(EMPTY) == {};
    } else {
      CallsAreConserved(cfg, ops[..|ops| - 1]);
      StepMovesWaiting(cfg, Run(cfg, ops[..|ops| - 1]).value, ops[|ops| - 1]);
    }
  }

  // ---------- Teardown ----------

  /**
   * Unregistering does nothing unless the session is the device's current one.  Then it removes that device,
   * answers every pending call of that session with the disconnect error, and changes nothing else.
   */
  lemma UnregisterIsExact(cfg: Config, r: Registry, app: AppId, sid: SessionId)
    requires Inv(cfg, r)
    ensures
      var r' := UnregisterDevice(r, app, sid);
      if Lookup(r.devices, app) != Some(sid) then r' == r
      else
        && r'.devices == r.devices - {app} && r'.sockets == r.sockets
        && r'.sessions == r.sessions[sid := r.sessions[sid].(pending := {})]
        && r'.calls.Keys == r.calls.Keys
        && forall q <- r.calls ::
             r'.calls[q] == if r.calls[q].sessionId == sid && IsWaiting(r, q) && r.calls[q].slot.None?
                            then r.calls[q].(slot := Some(Error(DISCONNECTED)))
                            else r.calls[q]
  {
    if Lookup(r.devices, app) == Some(sid) {
      forall q | q in r.calls
        ensures q in r.sessions[sid].pending <==>
                r.calls[q].sessionId == sid && IsWaiting(r, q) && r.calls[q].slot.None?
      {
        assert CallOk(r, q, r.calls[q]);
      }
    }
  }

  /** The session a teardown step is about: what the socket remembers, or what was listed. */
  function TornDown(r: Registry, op: Op): Option<SessionId>
    requires op.CloseOp? || op.EvictOp?
  {
    match op
    case CloseOp(socket) => if socket in r.sockets then r.sockets[socket].sessionId else None
    case EvictOp(_, sid) => Some(sid)
    case _ => None
  }

  /** A late teardown is harmless: closing an old socket or evicting from an old list leaves other sessions alone. */
  lemma OtherSessionsSurviveTeardown(cfg: Config, ops: seq<Op>, op: Op, sid: SessionId)
    requires Run(cfg, ops + [op]).Some? && Run(cfg, ops).Some? && (op.CloseOp? || op.EvictOp?)
    requires sid in Run(cfg, ops).value.reg.sessions && TornDown(Run(cfg, ops).value.reg, op) != Some(sid)
    ensures
      var r, r' := Run(cfg, ops).value.reg, Run(cfg, ops + [op]).value.reg;
      && sid in r'.sessions && r'.sessions[sid] == r.sessions[sid]
      && (IsRegistered(r', sid) <==> IsRegistered(r, sid))
      && forall q <- r.calls :: r.calls[q].sessionId == sid ==> q in r'.calls && r'.calls[q] == r.calls[q]
  {
    assert (ops + [op])[..|ops|] == ops;
    InvAlways(cfg, ops);
    var r := Run(cfg, ops).value.reg;
    match op
    case CloseOp(socket) =>
      var s := r.sockets[socket];
      if s.app.Some? && s.sessionId.Some? {
        UnregisterIsExact(cfg, r, s.app.value, s.sessionId.value);
      }
    case EvictOp(app, listed) =>
      UnregisterIsExact(cfg, r, app, listed);
    case _ =>
  }

  /** Whatever is listed for eviction was stale when a snapshot listed it. */
  lemma {:induction false} DoomedWasStale(cfg: Config, ops: seq<Op>, app: AppId, sid: SessionId)
    requires Run(cfg, ops).Some? && (app, sid) in Run(cfg, ops).value.doomed
    ensures exists k: nat ::
              && k < |ops| && ops[k].SnapshotOp? && Run(cfg, ops[..k]).Some?
              && (app, sid) in Stale(cfg, Run(cfg, ops[..k]).value.reg, ops[k].now)
    decreases |ops|
  {
    var n := |ops| - 1;
    var w := Run(cfg, ops[..n]).value;
    if (app, sid) in w.doomed {
      DoomedWasStale(cfg, ops[..n], app, sid);
      var k: nat :| k < n && ops[..n][k].SnapshotOp? && Run(cfg, ops[..n][..k]).Some?
                    && (app, sid) in Stale(cfg, Run(cfg, ops[..n][..k]).value.reg, ops[..n][k].now);
      assert ops[..n][..k] == ops[..k] && ops[..n][k] == ops[k];
    } else {
      assert ops[n].SnapshotOp?;
    }
  }

  /** The only ways to lose a registration: its remembering socket closes, it is evicted, or its device says hello. */
  lemma RegistrationIsLostOnlyBy(cfg: Config, w: World, op: Op, sid: SessionId)
    requires Inv(cfg, w.reg) && Enabled(w, op)
    requires IsRegistered(w.reg, sid) && !IsRegistered(Step(cfg, w, op).reg, sid)
    ensures
      || (op.CloseOp? && w.reg.sockets[op.socket].sessionId == Some(sid))
      || (op.EvictOp? && op.sid == sid)
      || (op.HelloOp? && op.app == w.reg.sessions[sid].app && !IsBlank(op.app))
  {
    var r := w.reg;
    match op
    case HelloOp(socket, app, newSid, now) =>
      TrimmedEmpty(app);
      HelloEffect(r, socket, app, newSid, now);
    case CloseOp(socket) =>
      var s := r.sockets[socket];
      if s.app.Some? && s.sessionId.Some? {
        UnregisterIsExact(cfg, r, s.app.value, s.sessionId.value);
      }
    case EvictOp(app, listed) =>
      UnregisterIsExact(cfg, r, app, listed);
    case _ =>
      OtherStepsKeepDevices(cfg, w, op);
  }

  ghost predicate SameRegistrations(r: Registry, r': Registry) {
    && r'.devices == r.devices
    && forall sid <- r.sessions ::
         sid in r'.sessions && r'.sessions[sid].app == r.sessions[sid].app
         && r'.sessions[sid].socket == r.sessions[sid].socket
  }

  lemma OtherStepsKeepDevices(cfg: Config, w: World, op: Op)
    requires Enabled(w, op) && !op.HelloOp? && !op.CloseOp? && !op.EvictOp?
    ensures SameRegistrations(w.reg, Step(cfg, w, op).reg)
  {
    var r := w.reg;
    match op
    case StartOp(target, q, payload, now) =>
      StartKeepsDevices(cfg, r, target, q, payload, now);
    case PingOp(socket, ts, now) =>
    case PongOp(socket, now) =>
    case ResponseOp(socket, q, payload) =>
    case AwaitOp(q, expired) =>
    case _ =>
  }

  lemma StartKeepsDevices(cfg: Config, r: Registry, target: AppId, q: RequestId, payload: string, now: int)
    ensures SameRegistrations(r, StartProxy(cfg, r, target, q, payload, now).0)
  {
  }

  /** What a hello does to the registry and to what the socket remembers. */
  lemma HelloEffect(r: Registry, socket: SocketId, app: AppId, sid: SessionId, now: int)
    requires socket in r.sockets
    ensures
      var r' := OnHello(r, socket, app, sid, now);
      if Trim(app) == [] then r'.devices == r.devices && r'.sessions == r.sessions
      else
        && r'.devices == r.devices[app := sid]
        && r'.sessions == r.sessions[sid := Session(app, socket, now, {})]
        && socket in r'.sockets && r'.sockets[socket].live == r.sockets[socket].live
        && r'.sockets[socket].app == Some(app) && r'.sockets[socket].sessionId == Some(sid)
  {
  }

  /** Between snapshot and eviction a session may be heard from again; it is evicted all the same. */
  lemma EvictionIgnoresLaterTouch(cfg: Config, r: Registry, sid: SessionId, now: int)
    requires Inv(cfg, r) && IsRegistered(r, sid)
    ensures
      var app := r.sessions[sid].app;
      var touched := TouchDevice(r, app, now);
      && touched.sessions[sid].lastSeenMs == now && IsRegistered(touched, sid)
      && !IsRegistered(UnregisterDevice(touched, app, sid), sid)
  {
  }

  /**
   * A whole garbage collection is exact: afterwards a session is registered if and only if it was and had been seen
   * within the limit; every call pending in a collected session is answered, and no other call or session changes.
   */
  lemma CollectionIsExact(cfg: Config, r: Registry, now: int)
    requires Inv(cfg, r)
    ensures
      var r' := Collect(r, Stale(cfg, r, now));
      && r'.sessions.Keys == r.sessions.Keys && r'.calls.Keys == r.calls.Keys && r'.sockets == r.sockets
      && (forall sid <- r.sessions ::
            var stale := IsRegistered(r, sid) && now - r.sessions[sid].lastSeenMs > cfg.deviceTtlMs;
            && (IsRegistered(r', sid) <==> IsRegistered(r, sid) && !stale)
            && r'.sessions[sid] == if stale then r.sessions[sid].(pending := {}) else r.sessions[sid])
      && (forall q <- r.calls ::
            var home := r.calls[q].sessionId;
            var stale := IsRegistered(r, home) && now - r.sessions[home].lastSeenMs > cfg.deviceTtlMs;
            r'.calls[q] == if stale && IsWaiting(r, q) && r.calls[q].slot.None?
                           then r.calls[q].(slot := Some(Error(DISCONNECTED))) else r.calls[q])
  {
    var doomed := Stale(cfg, r, now);
    var sids := set p | p in doomed :: p.1;
    forall sid | sid in r.sessions
      ensures sid in sids <==> IsRegistered(r, sid) && now - r.sessions[sid].lastSeenMs > cfg.deviceTtlMs
    {
      if IsRegistered(r, sid) && now - r.sessions[sid].lastSeenMs > cfg.deviceTtlMs {
        assert (r.sessions[sid].app, sid) in doomed;
      }
      if sid in sids {
        var p :| p in doomed && p.1 == sid;
        assert r.sessions[r.devices[p.0]].app == p.0;
      }
    }
    forall q | q in r.calls
      ensures q in PendingOf(r, sids) <==>
              r.calls[q].sessionId in sids && IsWaiting(r, q) && r.calls[q].slot.None?
    {
      assert CallOk(r, q, r.calls[q]);
    }
  }

  // ---------- Responses ----------

  /**
   * A response changes something exactly when its request is pending in the current session of the device that
   * the socket speaks for; then it fills that one call's channel and releases that one responder.
   */
  lemma ResponseReachesOnlyItsCall(cfg: Config, r: Registry, socket: SocketId, q: RequestId, payload: string)
    requires Inv(cfg, r)
    ensures
      var r' := OnResponse(r, socket, q, payload);
      if q in r.calls && IsWaiting(r, q) && r.calls[q].slot.None? && IsRegistered(r, r.calls[q].sessionId)
         && LocalApp(r, socket) == Some(r.sessions[r.calls[q].sessionId].app)
      then
        var home := r.calls[q].sessionId;
        && r'.calls == r.calls[q := r.calls[q].(slot := Some(HttpResponse(q, payload)))]
        && r'.sessions == r.sessions[home := r.sessions[home].(pending := r.sessions[home].pending - {q})]
        && r'.devices == r.devices && r'.sockets == r.sockets
      else r' == r
  {
    if q in r.calls {
      assert CallOk(r, q, r.calls[q]);
    }
  }

  /** Responses to requests of a replaced or unregistered session, and second responses, are discarded. */
  lemma LateResponsesAreDiscarded(cfg: Config, ops: seq<Op>, socket: SocketId, q: RequestId, payload: string)
    requires Run(cfg, ops).Some?
    ensures
      var r := Run(cfg, ops).value.reg;
      (q !in r.calls || !IsRegistered(r, r.calls[q].sessionId) || r.calls[q].slot.Some? || r.calls[q].outcome.Some?)
      ==> OnResponse(r, socket, q, payload) == r
  {
    InvAlways(cfg, ops);
    ResponseReachesOnlyItsCall(cfg, Run(cfg, ops).value.reg, socket, q, payload);
  }

  lemma CallKeepsSession(cfg: Config, w: World, op: Op, q: RequestId)
    requires Enabled(w, op) && q in w.reg.calls
    ensures q in Step(cfg, w, op).reg.calls
    ensures Step(cfg, w, op).reg.calls[q].sessionId == w.reg.calls[q].sessionId
  {
  }

  lemma SessionKeepsDevice(cfg: Config, w: World, op: Op, sid: SessionId)
    requires Enabled(w, op) && sid in w.reg.sessions
    ensures sid in Step(cfg, w, op).reg.sessions
    ensures Step(cfg, w, op).reg.sessions[sid].app == w.reg.sessions[sid].app
    ensures Step(cfg, w, op).reg.sessions[sid].socket == w.reg.sessions[sid].socket
  {
    match op
    case HelloOp(socket, app, newSid, now) => HelloEffect(w.reg, socket, app, newSid, now);
    case CloseOp(socket) =>
    case EvictOp(app, listed) =>
    case _ => OtherStepsKeepDevices(cfg, w, op);
  }

  /** The device that a call was sent to. */
  function DeviceOf(r: Registry, q: RequestId): Option<AppId> {
    if q in r.calls && r.calls[q].sessionId in r.sessions then Some(r.sessions[r.calls[q].sessionId].app) else None
  }

  /** A call stays with its session, and a session with its device. */
  lemma DeviceIsKept(cfg: Config, w: World, op: Op, q: RequestId)
    requires Inv(cfg, w.reg) && Enabled(w, op) && q in w.reg.calls
    ensures DeviceOf(Step(cfg, w, op).reg, q) == DeviceOf(w.reg, q)
  {
    assert CallOk(w.reg, q, w.reg.calls[q]);
    CallKeepsSession(cfg, w, op, q);
    SessionKeepsDevice(cfg, w, op, w.reg.calls[q].sessionId);
  }

  /** The step answers this call: a socket that speaks for its device responds while the call's session is current. */
  ghost predicate Answers(r: Registry, op: Op, q: RequestId, payload: string) {
    && op.ResponseOp? && op.q == q && op.payload == payload
    && q in r.calls && r.calls[q].slot.None? && IsRegistered(r, r.calls[q].sessionId)
    && LocalApp(r, op.socket).Some? && LocalApp(r, op.socket) == DeviceOf(r, q)
  }

  /** The other steps put nothing into a channel, or the disconnect error. */
  lemma OtherStepsDeliverNoResponse(cfg: Config, w: World, op: Op, q: RequestId)
    requires Enabled(w, op) && !op.ResponseOp? && q in Step(cfg, w, op).reg.calls
    ensures
      var slot := Step(cfg, w, op).reg.calls[q].slot;
      slot in {None, Some(Error(DISCONNECTED))} || (q in w.reg.calls && w.reg.calls[q].slot == slot)
  {
  }

  /** Only a response puts a response into a channel. */
  lemma ResponseComesFromAStep(cfg: Config, w: World, op: Op, q: RequestId, payload: string)
    requires Inv(cfg, w.reg) && Enabled(w, op)
    requires
      var calls := Step(cfg, w, op).reg.calls;
      q in calls && calls[q].slot == Some(HttpResponse(q, payload))
    ensures || (q in w.reg.calls && w.reg.calls[q].slot == Some(HttpResponse(q, payload)))
            || Answers(w.reg, op, q, payload)
  {
    if op.ResponseOp? {
      ResponseReachesOnlyItsCall(cfg, w.reg, op.socket, op.q, op.payload);
    } else {
      OtherStepsDeliverNoResponse(cfg, w, op, q);
    }
  }

  /** Step k of the run answers this call, whose session belongs to this device. */
  ghost predicate AnsweredAt(cfg: Config, ops: seq<Op>, k: nat, q: RequestId, payload: string, device: Option<AppId>) {
    && k < |ops| && Run(cfg, ops[..k]).Some?
    && Answers(Run(cfg, ops[..k]).value.reg, ops[k], q, payload)
    && DeviceOf(Run(cfg, ops[..k]).value.reg, q) == device
  }

  lemma AnsweredInPrefix(cfg: Config, ops: seq<Op>, n: nat, k: nat, q: RequestId, payload: string,
                         device: Option<AppId>)
    requires n <= |ops| && AnsweredAt(cfg, ops[..n], k, q, payload, device)
    ensures AnsweredAt(cfg, ops, k, q, payload, device)
  {
    assert ops[..n][..k] == ops[..k] && ops[..n][k] == ops[k];
  }

  /**
   * Where a response comes from.  A response in a call's channel was sent, with that payload, by an earlier step on a
   * socket that at that time spoke for the device the call was sent to, while the call's session was the current one.
   */
  lemma {:induction false} ResponseIsBacked(cfg: Config, ops: seq<Op>, q: RequestId, payload: string)
    requires Run(cfg, ops).Some? && q in Run(cfg, ops).value.reg.calls
    requires Run(cfg, ops).value.reg.calls[q].slot == Some(HttpResponse(q, payload))
    ensures exists k: nat :: AnsweredAt(cfg, ops, k, q, payload, DeviceOf(Run(cfg, ops).value.reg, q))
    decreases |ops|
  {
    var n := |ops| - 1;
    var w, op := Run(cfg, ops[..n]).value, ops[n];
    InvAlways(cfg, ops[..n]);
    ResponseComesFromAStep(cfg, w, op, q, payload);
    var device := DeviceOf(w.reg, q);
    DeviceIsKept(cfg, w, op, q);
    if Answers(w.reg, op, q, payload) {
      assert AnsweredAt(cfg, ops, n, q, payload, device);
    } else {
      ResponseIsBacked(cfg, ops[..n], q, payload);
      var k: nat :| AnsweredAt(cfg, ops[..n], k, q, payload, device);
      AnsweredInPrefix(cfg, ops, n, k, q, payload, device);
    }
  }

  /**
   * The socket is any that speaks for the device, not only the session's own: one that was replaced and is still open
   * answers calls sent on the new session, and keeps that session from going stale.
   */
  lemma ReplacedSocketStillSpeaks(cfg: Config, r: Registry, replaced: SocketId, q: RequestId, payload: string, now: int)
    requires Inv(cfg, r) && IsWaiting(r, q) && r.calls[q].slot.None?
    requires
      var home := r.calls[q].sessionId;
      && IsRegistered(r, home) && r.sessions[home].socket != replaced
      && LocalApp(r, replaced) == Some(r.sessions[home].app)
    ensures
      var home := r.calls[q].sessionId;
      && AwaitProxy(OnResponse(r, replaced, q, payload), q, true).1 == Some(Delivered(HttpResponse(q, payload)))
      && OnPong(r, replaced, now).sessions[home].lastSeenMs == now
  {
    ResponseReachesOnlyItsCall(cfg, r, replaced, q, payload);
  }

  // ---------- What is sent ----------

  /** One frame was put into one channel, and into no other. */
  ghost predicate IsSentOn(r: Registry, r': Registry, socket: SocketId, frame: Frame) {
    socket in r.sockets
    && r'.sockets == r.sockets[socket := r.sockets[socket].(sent := r.sockets[socket].sent + [frame])]
  }

  /**
   * How a proxy call starts.  It is refused as offline when the device has no current session, or has room but a closed
   * channel; as busy when the session is at its limit; and then nothing is sent.  Otherwise it waits: its request goes
   * to the session's channel and nowhere else, and the call is filed under that session.
   */
  lemma StartIsExact(cfg: Config, r: Registry, target: AppId, q: RequestId, payload: string, now: int)
    requires Inv(cfg, r) && q !in r.calls
    ensures
      var (r', started) := StartProxy(cfg, r, target, q, payload, now);
      && r'.devices == r.devices
      && (target !in r.devices ==> started == DeviceOffline && r' == r)
      && (target in r.devices ==>
            var sid := r.devices[target];
            var room := |r.sessions[sid].pending| < cfg.maxInflight;
            var socket := r.sessions[sid].socket;
            && (started == DeviceBusy <==> !room)
            && (started == DeviceOffline <==> room && !r.sockets[socket].open)
            && (started == Waiting <==> room && r.sockets[socket].open)
            && (started == Waiting ==>
                  && IsSentOn(r, r', socket, HttpRequest(q, payload))
                  && r'.calls == r.calls[q := Call(sid, None, None)]
                  && q in r'.sessions[sid].pending))
      && (started != Waiting ==> r'.sockets == r.sockets && r'.calls == r.calls)
  {
  }

  /** The frames that a step puts into a socket's channel when it is open. */
  function Emitted(cfg: Config, r: Registry, op: Op, k: SocketId): seq<Frame> {
    match op
    case PingOp(socket, ts, _) => if socket == k then [Pong(ts)] else []
    case NoticeOp(socket, frame) => if socket == k then [frame] else []
    case HelloOp(socket, app, sid, _) =>
      if IsBlank(app) then (if socket == k then [Error(ID_REQUIRED)] else [])
      else
        (if app in r.devices && SocketOfSession(r, r.devices[app]) == Some(k) then [Error(REPLACED)] else [])
        + (if socket == k then [HelloAck(sid)] else [])
    case StartOp(target, q, payload, _) =>
      if target in r.devices && SocketOfSession(r, r.devices[target]) == Some(k) && HasRoom(cfg, r, r.devices[target])
      then [HttpRequest(q, payload)] else []
    case _ => []
  }

  function SocketOfSession(r: Registry, sid: SessionId): Option<SocketId> {
    if sid in r.sessions then Some(r.sessions[sid].socket) else None
  }

  predicate HasRoom(cfg: Config, r: Registry, sid: SessionId) {
    sid in r.sessions && |r.sessions[sid].pending| < cfg.maxInflight
  }

  /** The channel of `k` has grown by these frames, if it is open. */
  ghost predicate Grew(r: Registry, r': Registry, k: SocketId, frames: seq<Frame>)
    requires k in r.sockets
  {
    k in r'.sockets && r'.sockets[k].sent == r.sockets[k].sent + if r.sockets[k].open then frames else []
  }

  lemma HelloSends(cfg: Config, w: World, op: Op, k: SocketId)
    requires Inv(cfg, w.reg) && Enabled(w, op) && op.HelloOp? && k in w.reg.sockets
    ensures Grew(w.reg, OnHello(w.reg, op.socket, op.app, op.sid, op.now), k, Emitted(cfg, w.reg, op, k))
  {
    TrimmedEmpty(op.app);
    var r := w.reg;
    if !IsBlank(op.app) {
      RegisterSends(r, op.app, op.sid, op.socket, op.now, k);
    }
  }

  lemma RegisterSends(r: Registry, app: AppId, sid: SessionId, socket: SocketId, now: int, k: SocketId)
    requires DevicesOk(r) && k in r.sockets
    ensures
      var told := app in r.devices && SocketOfSession(r, r.devices[app]) == Some(k);
      Grew(r, RegisterDevice(r, app, sid, socket, now), k, if told then [Error(REPLACED)] else [])
    ensures RegisterDevice(r, app, sid, socket, now).sockets.Keys == r.sockets.Keys
    ensures RegisterDevice(r, app, sid, socket, now).sockets[k].open == r.sockets[k].open
  {
  }

  lemma StartSends(cfg: Config, w: World, op: Op, k: SocketId)
    requires Inv(cfg, w.reg) && Enabled(w, op) && op.StartOp? && k in w.reg.sockets
    ensures Grew(w.reg, StartProxy(cfg, w.reg, op.target, op.q, op.payload, op.now).0, k, Emitted(cfg, w.reg, op, k))
  {
    StartIsExact(cfg, w.reg, op.target, op.q, op.payload, op.now);
  }

  lemma OthersSend(cfg: Config, w: World, op: Op, k: SocketId)
    requires Enabled(w, op) && !op.HelloOp? && !op.StartOp? && k in w.reg.sockets
    ensures Grew(w.reg, Step(cfg, w, op).reg, k, Emitted(cfg, w.reg, op, k))
  {
  }

  /**
   * What each step sends.  A ping is answered with a pong of the same time; a hello with its acknowledgement, after
   * the replaced session has been told, or with an error if the id is blank; a proxy call that finds room becomes a
   * request; and no other step sends anything.
   */
  lemma SentIsExact(cfg: Config, w: World, op: Op, k: SocketId)
    requires Inv(cfg, w.reg) && Enabled(w, op) && k in w.reg.sockets
    ensures Grew(w.reg, Step(cfg, w, op).reg, k, Emitted(cfg, w.reg, op, k))
  {
    match op
    case HelloOp(socket, app, sid, now) => HelloSends(cfg, w, op, k);
    case StartOp(target, q, payload, now) => StartSends(cfg, w, op, k);
    case _ => OthersSend(cfg, w, op, k);
  }

  /** The payloads of the requests under an id among some frames. */
  function Requests(sent: seq<Frame>, q: RequestId): seq<string> {
    if sent == [] then []
    else
      var last := sent[|sent| - 1];
      Requests(sent[..|sent| - 1], q) + if last.HttpRequest? && last.requestId == q then [last.payload] else []
  }

  lemma {:induction false} RequestsAppend(sent: seq<Frame>, more: seq<Frame>, q: RequestId)
    ensures Requests(sent + more, q) == Requests(sent, q) + Requests(more, q)
    decreases |more|
  {
    if more == [] {
      assert sent + more == sent;
    } else {
      var n := |more| - 1;
      RequestsAppend(sent, more[..n], q);
      assert (sent + more)[..|sent| + n] == sent + more[..n];
    }
  }

  lemma RequestsOfTwo(first: Frame, second: Frame, q: RequestId)
    requires !first.HttpRequest? && !second.HttpRequest?
    ensures Requests([first] + [second], q) == [] && Requests([first] + [], q) == [] && Requests([] + [second], q) == []
  {
    RequestsAppend([first], [second], q);
    assert [first] + [] == [first] && [] + [second] == [second];
  }

  lemma NoRequestEmitted(cfg: Config, w: World, op: Op, k: SocketId, q: RequestId)
    requires Enabled(w, op) && !op.StartOp?
    ensures Requests(Emitted(cfg, w.reg, op, k), q) == []
  {
    if op.HelloOp? {
      RequestsOfTwo(Error(REPLACED), HelloAck(op.sid), q);
    }
  }

  lemma RequestsEmitted(cfg: Config, w: World, op: Op, k: SocketId, q: RequestId)
    requires Inv(cfg, w.reg) && Enabled(w, op) && k in w.reg.sockets
    ensures
      var frames := if w.reg.sockets[k].open then Emitted(cfg, w.reg, op, k) else [];
      var isOwn := SocketOfCall(Step(cfg, w, op).reg, q) == Some(k);
      Requests(frames, q) == if StartsCall(cfg, w, op) && op.q == q && isOwn then [op.payload] else []
  {
    if op.StartOp? {
      RequestsStarted(cfg, w.reg, op.target, op.q, op.payload, op.now, k, q);
      assert Step(cfg, w, op).reg == StartProxy(cfg, w.reg, op.target, op.q, op.payload, op.now).0;
    } else {
      NoRequestEmitted(cfg, w, op, k, q);
    }
  }

  lemma RequestsStarted(cfg: Config, r: Registry, target: AppId, p: RequestId, payload: string, now: int,
                        k: SocketId, q: RequestId)
    requires Inv(cfg, r) && p !in r.calls && k in r.sockets
    ensures
      var frames := if r.sockets[k].open then Emitted(cfg, r, StartOp(target, p, payload, now), k) else [];
      var (r', started) := StartProxy(cfg, r, target, p, payload, now);
      Requests(frames, q) == if started == Waiting && p == q && SocketOfCall(r', q) == Some(k) then [payload] else []
  {
    StartIsExact(cfg, r, target, p, payload, now);
    var frames := if r.sockets[k].open then Emitted(cfg, r, StartOp(target, p, payload, now), k) else [];
    assert frames in {[], [HttpRequest(p, payload)]};
  }

  function SocketOfCall(r: Registry, q: RequestId): Option<SocketId> {
    if q in r.calls then SocketOfSession(r, r.calls[q].sessionId) else None
  }

  /** The payload of the proxy call that was started under this id. */
  function Asked(cfg: Config, ops: seq<Op>, q: RequestId): Option<string>
    requires Run(cfg, ops).Some?
  {
    if ops == [] then None
    else
      var before, op := ops[..|ops| - 1], ops[|ops| - 1];
      if StartsCall(cfg, Run(cfg, before).value, op) && op.q == q then Some(op.payload) else Asked(cfg, before, q)
  }

  lemma CallsStep(cfg: Config, w: World, op: Op, q: RequestId)
    requires Enabled(w, op)
    ensures q in Step(cfg, w, op).reg.calls <==> q in w.reg.calls || (StartsCall(cfg, w, op) && op.q == q)
  {
  }

  /** A call stays with its socket, which was there before the call. */
  lemma SocketIsKept(cfg: Config, w: World, op: Op, q: RequestId)
    requires Inv(cfg, w.reg) && Enabled(w, op) && q in w.reg.calls
    ensures SocketOfCall(Step(cfg, w, op).reg, q) == SocketOfCall(w.reg, q)
    ensures SocketOfCall(w.reg, q).Some? && SocketOfCall(w.reg, q).value in w.reg.sockets
  {
    assert CallOk(w.reg, q, w.reg.calls[q]);
    CallKeepsSession(cfg, w, op, q);
    SessionKeepsDevice(cfg, w, op, w.reg.calls[q].sessionId);
  }

  /** The channel of `k` holds the request of this call once, with this payload, if it is the call's own; else never. */
  ghost predicate SentOnce(r: Registry, k: SocketId, q: RequestId, asked: Option<string>) {
    && (q in r.calls <==> asked.Some?)
    && (k in r.sockets ==>
          Requests(r.sockets[k].sent, q) == if SocketOfCall(r, q) == Some(k) then [asked.value] else [])
  }

  lemma SentOnceStep(cfg: Config, w: World, op: Op, k: SocketId, q: RequestId, asked: Option<string>)
    requires Inv(cfg, w.reg) && Enabled(w, op) && SentOnce(w.reg, k, q, asked)
    ensures
      var now := if StartsCall(cfg, w, op) && op.q == q then Some(op.payload) else asked;
      SentOnce(Step(cfg, w, op).reg, k, q, now)
  {
    CallsStep(cfg, w, op, q);
    if q in w.reg.calls {
      SocketIsKept(cfg, w, op, q);
    }
    if k in w.reg.sockets {
      SentIsExact(cfg, w, op, k);
      RequestsEmitted(cfg, w, op, k, q);
      var frames := if w.reg.sockets[k].open then Emitted(cfg, w.reg, op, k) else [];
      RequestsAppend(w.reg.sockets[k].sent, frames, q);
    } else {
      NewSocketIsSilent(cfg, w, op, k);
    }
  }

  lemma NewSocketIsSilent(cfg: Config, w: World, op: Op, k: SocketId)
    requires Inv(cfg, w.reg) && Enabled(w, op) && k !in w.reg.sockets
    ensures k in Step(cfg, w, op).reg.sockets ==> op.ConnectOp? && Step(cfg, w, op).reg.sockets[k].sent == []
  {
  }

  /**
   * In every run, every call that was let through has its request, with the payload asked for, in the channel of its
   * own session exactly once; and no channel holds any other request.
   */
  lemma {:induction false} RequestIsSentOnce(cfg: Config, ops: seq<Op>, k: SocketId, q: RequestId)
    requires Run(cfg, ops).Some?
    ensures SentOnce(Run(cfg, ops).value.reg, k, q, Asked(cfg, ops, q))
    decreases |ops|
  {
    if ops != [] {
      var before, op := ops[..|ops| - 1], ops[|ops| - 1];
      InvAlways(cfg, before);
      RequestIsSentOnce(cfg, before, k, q);
      SentOnceStep(cfg, Run(cfg, before).value, op, k, q, Asked(cfg, before, q));
    }
  }

  // ---------- When a session was last heard of ----------

  /** A step that counts as a sign of life of a session. */
  function HeardBy(cfg: Config, r: Registry, op: Op, sid: SessionId): Option<int> {
    match op
    case HelloOp(_, app, created, now) => if created == sid && !IsBlank(app) then Some(now) else None
    case PingOp(socket, _, now) => if SpeaksFor(r, socket, sid) then Some(now) else None
    case PongOp(socket, now) => if SpeaksFor(r, socket, sid) then Some(now) else None
    case StartOp(target, _, _, now) =>
      if Lookup(r.devices, target) == Some(sid) && HasRoom(cfg, r, sid) then Some(now) else None
    case _ => None
  }

  /** The session is the current one of the device that the socket speaks for. */
  predicate SpeaksFor(r: Registry, socket: SocketId, sid: SessionId) {
    LocalApp(r, socket).Some? && Lookup(r.devices, LocalApp(r, socket).value) == Some(sid)
  }

  /** What a step leaves of the time a session was last seen, when it hears from the session or not. */
  ghost predicate SeenAfter(r: Registry, r': Registry, sid: SessionId, heard: Option<int>) {
    sid in r'.sessions ==>
      match heard
      case Some(now) => r'.sessions[sid].lastSeenMs == now
      case None => sid in r.sessions && r'.sessions[sid].lastSeenMs == r.sessions[sid].lastSeenMs
  }

  lemma HelloIsHeard(cfg: Config, w: World, op: Op, sid: SessionId)
    requires Inv(cfg, w.reg) && Enabled(w, op) && op.HelloOp?
    ensures SeenAfter(w.reg, OnHello(w.reg, op.socket, op.app, op.sid, op.now), sid, HeardBy(cfg, w.reg, op, sid))
  {
    TrimmedEmpty(op.app);
    HelloEffect(w.reg, op.socket, op.app, op.sid, op.now);
  }

  lemma PongIsHeard(cfg: Config, r: Registry, socket: SocketId, sid: SessionId, now: int)
    requires DevicesOk(r)
    ensures SeenAfter(r, OnPong(r, socket, now), sid, if SpeaksFor(r, socket, sid) then Some(now) else None)
  {
  }

  lemma OthersAreHeard(cfg: Config, w: World, op: Op, sid: SessionId)
    requires Inv(cfg, w.reg) && Enabled(w, op) && !op.HelloOp? && !op.PingOp? && !op.PongOp?
    ensures SeenAfter(w.reg, Step(cfg, w, op).reg, sid, HeardBy(cfg, w.reg, op, sid))
  {
  }

  lemma HeardStep(cfg: Config, w: World, op: Op, sid: SessionId)
    requires Inv(cfg, w.reg) && Enabled(w, op)
    ensures SeenAfter(w.reg, Step(cfg, w, op).reg, sid, HeardBy(cfg, w.reg, op, sid))
  {
    match op
    case HelloOp(socket, app, created, now) => HelloIsHeard(cfg, w, op, sid);
    case PingOp(socket, ts, now) => PongIsHeard(cfg, Send(w.reg, socket, Pong(ts)), socket, sid, now);
    case PongOp(socket, now) => PongIsHeard(cfg, w.reg, socket, sid, now);
    case _ => OthersAreHeard(cfg, w, op, sid);
  }

  function LastHeard(cfg: Config, ops: seq<Op>, sid: SessionId): Option<int>
    requires Run(cfg, ops).Some?
  {
    if ops == [] then None
    else
      var before, op := ops[..|ops| - 1], ops[|ops| - 1];
      var heard := HeardBy(cfg, Run(cfg, before).value.reg, op, sid);
      if heard.Some? then heard else LastHeard(cfg, before, sid)
  }

  /** In every run, a session was last seen at its hello, a ping or pong for its device, or a call that found room. */
  lemma {:induction false} SeenIsLastHeard(cfg: Config, ops: seq<Op>, sid: SessionId)
    requires Run(cfg, ops).Some? && sid in Run(cfg, ops).value.reg.sessions
    ensures LastHeard(cfg, ops, sid) == Some(Run(cfg, ops).value.reg.sessions[sid].lastSeenMs)
    decreases |ops|
  {
    var before, op := ops[..|ops| - 1], ops[|ops| - 1];
    InvAlways(cfg, before);
    HeardStep(cfg, Run(cfg, before).value, op, sid);
    if HeardBy(cfg, Run(cfg, before).value.reg, op, sid).None? {
      SeenIsLastHeard(cfg, before, sid);
    }
  }

  // ---------- A socket that says hello twice ----------

  /**
   * A socket task remembers only its latest hello.  Closing it takes down a session it opened exactly when that
   * is the remembered one; a session from an earlier hello under another id stays registered, on a closed channel.
   */
  lemma ClosingForgetsEarlierHellos(cfg: Config, r: Registry, socket: SocketId, sid: SessionId)
    requires Inv(cfg, r) && IsLive(r, socket) && IsRegistered(r, sid) && r.sessions[sid].socket == socket
    ensures IsRegistered(OnClose(r, socket), sid) <==> r.sockets[socket].sessionId != Some(sid)
    ensures !CanSend(OnClose(r, socket), socket)
  {
  }

  lemma SecondHelloOrphansTheFirst(cfg: Config, r: Registry, socket: SocketId, a: AppId, b: AppId,
                                   s: SessionId, t: SessionId, now: int)
    requires Inv(cfg, r) && IsLive(r, socket) && s !in r.sessions && t !in r.sessions && s != t
    requires !IsBlank(a) && !IsBlank(b) && a != b
    ensures IsRegistered(OnClose(OnHello(OnHello(r, socket, a, s, now), socket, b, t, now), socket), s)
  {
    TrimmedEmpty(a);
    TrimmedEmpty(b);
    var r1 := OnHello(r, socket, a, s, now);
    HelloEffect(r, socket, a, s, now);
    HelloKeepsInv(cfg, r, socket, a, s, now);
    var r2 := OnHello(r1, socket, b, t, now);
    HelloEffect(r1, socket, b, t, now);
    HelloKeepsInv(cfg, r1, socket, b, t, now);
    ClosingForgetsEarlierHellos(cfg, r2, socket, s);
  }
}
