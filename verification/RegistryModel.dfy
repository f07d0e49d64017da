/**
 * The registry as an object.  Sessions, sockets and calls are shared by reference in the server; here each is
 * filed under its id, and a reference is that id.  Every method is proved to do to the registry what the function
 * of the same call in RegistrySpec says.
 */
module RegistryModel {
  import opened Prelude
  import opened Text
  import S = RegistrySpec

  lemma PrefixOfDistinct(s: seq<(S.AppId, S.SessionId)>, i: nat)
    requires i < |s| && forall j, k | 0 <= j < k < |s| :: s[j] != s[k]
    ensures s[i] in s && s[i] !in s[..i]
    ensures
      var shorter, longer := s[..i], s[..i + 1];
      (set p | p in longer) == (set p | p in shorter) + {s[i]}
  {
    assert s[..i + 1] == s[..i] + [s[i]];
  }

  class Registry {
    const cfg: S.Config
    var devices: map<S.AppId, S.SessionId>
    var sessions: map<S.SessionId, S.Session>
    var sockets: map<S.SocketId, S.Socket>
    var calls: map<S.RequestId, S.Call>

    ghost predicate Valid()
      reads this
    {
      S.DevicesOk(View()) && forall sid <- sessions :: sessions[sid].pending <= calls.Keys
    }

    function View(): S.Registry
      reads this
    {
      S.Registry(devices, sessions, sockets, calls)
    }

    constructor (cfg: S.Config)
      ensures this.cfg == cfg && Valid() && View() == S.EMPTY
    {
      this.cfg := cfg;
      devices, sessions, sockets, calls := map[], map[], map[], map[];
    }

    /** Puts a frame into a socket's outgoing channel; false if its receiver is gone. */
    method Send(socket: S.SocketId, frame: S.Frame) returns (ok: bool)
      modifies this`sockets
      ensures View() == S.Send(old(View()), socket, frame) && ok == S.CanSend(old(View()), socket)
    {
      ok := socket in sockets && sockets[socket].open;
      if ok {
        var s := sockets[socket];
        sockets := sockets[socket := s.(sent := s.sent + [frame])];
      }
    }

    // ---------- Registry calls ----------

    method RegisterDevice(app: S.AppId, sid: S.SessionId, socket: S.SocketId, now: int)
      requires Valid() && sid !in sessions
      modifies this`devices, this`sessions, this`sockets
      ensures Valid() && View() == S.RegisterDevice(old(View()), app, sid, socket, now)
    {
      if app in devices {
        var previous := sessions[devices[app]];
        devices := devices - {app};
        var _ := Send(previous.socket, S.Error(S.REPLACED));
      }
      sessions := sessions[sid := S.Session(app, socket, now, {})];
      devices := devices[app := sid];
      assert devices == old(devices)[app := sid];
    }

    /** Every pending responder of the session is taken out of the map and sent the disconnect error. */
    method UnregisterDevice(app: S.AppId, sid: S.SessionId)
      requires Valid()
      modifies this`devices, this`sessions, this`calls
      ensures Valid() && View() == S.UnregisterDevice(old(View()), app, sid)
    {
      if app !in devices || devices[app] != sid { return; }
      devices := devices - {app};
      var keys := sessions[sid].pending;
      ghost var all := keys;
      S.AnswerNone(calls, S.Error(S.DISCONNECTED));
      while keys != {}
        invariant keys <= all && sid in sessions && devices == old(devices) - {app}
        invariant sessions == old(sessions)[sid := old(sessions)[sid].(pending := keys)]
        invariant calls == S.Answer(old(calls), all - keys, S.Error(S.DISCONNECTED))
        decreases keys
      {
        var key :| key in keys;
        assert all - (keys - {key}) == (all - keys) + {key};
        S.AnswerOne(old(calls), all - keys, key, S.Error(S.DISCONNECTED));
        keys := keys - {key};
        sessions := sessions[sid := sessions[sid].(pending := keys)];
        calls := calls[key := calls[key].(slot := Some(S.Error(S.DISCONNECTED)))];
      }
      assert all - {} == all;
    }

    method TouchDevice(app: S.AppId, now: int)
      requires Valid()
      modifies this`sessions
      ensures Valid() && View() == S.TouchDevice(old(View()), app, now)
    {
      if app in devices {
        var sid := devices[app];
        sessions := sessions[sid := sessions[sid].(lastSeenMs := now)];
      }
    }

    method CompleteRequest(app: S.AppId, frame: S.Frame)
      requires Valid()
      modifies this`sessions, this`calls
      ensures Valid() && View() == S.CompleteRequest(old(View()), app, frame)
    {
      if !frame.HttpResponse? { return; }
      var q := frame.requestId;
      if app in devices && q in sessions[devices[app]].pending {
        var sid := devices[app];
        S.AnswerNone(calls, frame);
        S.AnswerOne(calls, {}, q, frame);
        assert {} + {q} == {q};
        sessions := sessions[sid := sessions[sid].(pending := sessions[sid].pending - {q})];
        calls := calls[q := calls[q].(slot := Some(frame))];
      }
    }

    /** `proxy_http` up to its await: a request whose frame cannot be sent is taken back. */
    method StartProxy(target: S.AppId, q: S.RequestId, payload: string, now: int) returns (started: S.Started)
      requires Valid() && q !in calls
      modifies this`sessions, this`sockets, this`calls
      ensures Valid() && (View(), started) == S.StartProxy(cfg, old(View()), target, q, payload, now)
    {
      if target !in devices { return S.DeviceOffline; }
      var sid := devices[target];
      if |sessions[sid].pending| >= cfg.maxInflight { return S.DeviceBusy; }
      sessions := sessions[sid := sessions[sid].(lastSeenMs := now)];
      sessions := sessions[sid := sessions[sid].(pending := sessions[sid].pending + {q})];
      var ok := Send(sessions[sid].socket, S.HttpRequest(q, payload));
      if !ok {
        sessions := sessions[sid := sessions[sid].(pending := sessions[sid].pending - {q})];
        assert sessions[sid].pending == old(sessions)[sid].pending;
        assert sessions == old(sessions)[sid := old(sessions)[sid].(lastSeenMs := now)];
        return S.DeviceOffline;
      }
      calls := calls[q := S.Call(sid, None, None)];
      return S.Waiting;
    }

    /** The call resumes with what its channel or the clock says; None means that it keeps waiting. */
    method AwaitProxy(q: S.RequestId, expired: bool) returns (r: Option<S.Outcome>)
      requires Valid() && q in calls
      modifies this`sessions, this`calls
      ensures Valid() && (View(), r) == S.AwaitProxy(old(View()), q, expired)
    {
      var call := calls[q];
      if call.slot.Some? {
        r := Some(S.Delivered(call.slot.value));
      } else if call.sessionId !in sessions || q !in sessions[call.sessionId].pending {
        r := Some(S.ChannelClosed);
      } else if expired {
        var session := sessions[call.sessionId];
        sessions := sessions[call.sessionId := session.(pending := session.pending - {q})];
        r := Some(S.TimedOut);
      } else {
        return None;
      }
      calls := calls[q := call.(outcome := r)];
    }

    /** First the stale sessions are listed, in whatever order the map yields them; then they are evicted one by one. */
    method GcStaleDevices(now: int)
      requires Valid()
      modifies this`devices, this`sessions, this`calls
      ensures Valid() && View() == S.Collect(old(View()), S.Stale(cfg, old(View()), now))
    {
      var stale := ListStale(now);
      ghost var all, before := S.Stale(cfg, View(), now), View();
      ghost var done: set<(S.AppId, S.SessionId)> := {};
      S.CollectNothing(before);
      for i := 0 to |stale|
        invariant Valid() && done <= all && done == set p | p in stale[..i]
        invariant View() == S.Collect(before, done)
      {
        var (app, sid) := stale[i];
        PrefixOfDistinct(stale, i);
        assert (app, sid) in all;
        S.CollectOneMore(before, done, app, sid);
        UnregisterDevice(app, sid);
        done := done + {(app, sid)};
      }
      assert stale[..|stale|] == stale && done == all;
    }

    method ListStale(now: int) returns (stale: seq<(S.AppId, S.SessionId)>)
      requires Valid()
      ensures (set p | p in stale) == S.Stale(cfg, View(), now)
      ensures forall i, j | 0 <= i < j < |stale| :: stale[i] != stale[j]
    {
      stale := [];
      var todo := devices.Keys;
      while todo != {}
        invariant todo <= devices.Keys
        invariant forall p <- stale :: p in S.Stale(cfg, View(), now) && p.0 !in todo
        invariant forall p <- S.Stale(cfg, View(), now) :: p.0 in todo || p in stale
        invariant forall i, j | 0 <= i < j < |stale| :: stale[i] != stale[j]
        decreases todo
      {
        var app :| app in todo;
        var sid := devices[app];
        todo := todo - {app};
        if now - sessions[sid].lastSeenMs > cfg.deviceTtlMs {
          stale := stale + [(app, sid)];
        }
      }
    }

    // ---------- The receive loop of a socket ----------

    method Connect(socket: S.SocketId)
      requires Valid() && socket !in sockets
      modifies this`sockets
      ensures Valid() && View() == S.Connect(old(View()), socket)
    {
      sockets := sockets[socket := S.Socket(true, true, [], None, None)];
    }

    method OnHello(socket: S.SocketId, app: S.AppId, sid: S.SessionId, now: int)
      requires Valid() && sid !in sessions && socket in sockets
      modifies this`devices, this`sessions, this`sockets
      ensures Valid() && View() == S.OnHello(old(View()), socket, app, sid, now)
    {
      if Trim(app) == [] {
        var _ := Send(socket, S.Error(S.ID_REQUIRED));
        return;
      }
      RegisterDevice(app, sid, socket, now);
      sockets := sockets[socket := sockets[socket].(app := Some(app), sessionId := Some(sid))];
      var _ := Send(socket, S.HelloAck(sid));
    }

    method OnPing(socket: S.SocketId, ts: int, now: int)
      requires Valid() && socket in sockets
      modifies this`sessions, this`sockets
      ensures Valid() && View() == S.OnPing(old(View()), socket, ts, now)
    {
      var _ := Send(socket, S.Pong(ts));
      OnPong(socket, now);
    }

    method OnPong(socket: S.SocketId, now: int)
      requires Valid() && socket in sockets
      modifies this`sessions
      ensures Valid() && View() == S.OnPong(old(View()), socket, now)
    {
      if sockets[socket].app.Some? {
        TouchDevice(sockets[socket].app.value, now);
      }
    }

    method OnResponse(socket: S.SocketId, q: S.RequestId, payload: string)
      requires Valid() && socket in sockets
      modifies this`sessions, this`calls
      ensures Valid() && View() == S.OnResponse(old(View()), socket, q, payload)
    {
      if sockets[socket].app.Some? {
        CompleteRequest(sockets[socket].app.value, S.HttpResponse(q, payload));
      }
    }

    /** After the loop: the remembered session, if any, is unregistered, and the writer is stopped. */
    method OnClose(socket: S.SocketId)
      requires Valid() && socket in sockets
      modifies this
      ensures Valid() && View() == S.OnClose(old(View()), socket)
    {
      var s := sockets[socket];
      if s.app.Some? && s.sessionId.Some? {
        UnregisterDevice(s.app.value, s.sessionId.value);
      }
      sockets := sockets[socket := s.(live := false, open := false)];
    }
  }
}
