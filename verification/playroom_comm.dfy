/**
 * The Playroom communication layer: connecting to the fixed room, the
 * player registry, the send guards, delivery of incoming confirmations and
 * the connection-change callbacks.  The SDK is outside the model: whether
 * loading and joining succeed, and what its `isHost` answers, are given.
 */
module PlayroomComm {
  import opened Options
  import FanOut
  import Notices

  /**
   * The fields of a PlayroomCommunication object the operations read or
   * write: `isConnected`, whether the SDK (and with it `RPC`) has been
   * stored, and the ids of the `players` map.
   */
  datatype Conn = Conn(connected: bool, sdkLoaded: bool, players: set<string>)

  /** A new object: not connected, no SDK, no players. */
  const Fresh: Conn := Conn(false, false, {})

  /** The SDK and `RPC` are stored before the room is joined, so a connected object has them. */
  predicate Valid(c: Conn) {
    c.connected ==> c.sdkLoaded
  }

  /** How init's two awaits end. */
  datatype InitOutcome = LoadFailed | JoinFailed | Joined

  /**
   * The result of init: the new state, the calls the connection callbacks
   * received, in order, and whether it resolved (true) or rethrew.
   */
  datatype InitResult<L> = InitResult(conn: Conn, calls: seq<ConnCall<L>>, resolved: bool)

  /**
   * init: load the SDK and store it, join the room, mark the object
   * connected and tell the connection callbacks so, all inside one try.
   * Any failure, including a connection callback that throws on hearing
   * "connected", lands in the catch, which marks the object disconnected,
   * tells the callbacks that, and rethrows.
   */
  function Init<L>(c: Conn, outcome: InitOutcome, callbacks: seq<L>, throws: L -> bool): (r: InitResult<L>)
    ensures r.resolved <==> outcome == Joined && FanOut.NoneThrows(callbacks, throws)
    ensures r.conn.connected <==> r.resolved
    ensures r.conn.sdkLoaded <==> c.sdkLoaded || outcome != LoadFailed
    ensures r.conn.players == c.players
    ensures Valid(r.conn)
    ensures outcome != Joined ==> r.calls == NotifyConnectionChange(callbacks, false, throws)
    ensures r.resolved ==> r.calls == NotifyConnectionChange(callbacks, true, throws) && |r.calls| == |callbacks|
    ensures outcome == Joined && !r.resolved ==>
              r.calls == NotifyConnectionChange(callbacks, true, throws) + NotifyConnectionChange(callbacks, false, throws)
    ensures |r.calls| > 0 ==> r.calls[|r.calls| - 1].connected == r.conn.connected
  {
    match outcome
    case LoadFailed =>
      InitResult(c.(connected := false), NotifyConnectionChange(callbacks, false, throws), false)
    case JoinFailed =>
      InitResult(c.(connected := false, sdkLoaded := true), NotifyConnectionChange(callbacks, false, throws), false)
    case Joined =>
      var heard := NotifyConnectionChange(callbacks, true, throws);
      if FanOut.DeliverUnguarded(callbacks, throws).1 then
        InitResult(c.(connected := false, sdkLoaded := true),
                   heard + NotifyConnectionChange(callbacks, false, throws), false)
      else
        InitResult(c.(connected := true, sdkLoaded := true), heard, true)
  }

  /**
   * After init, a confirmation can be sent exactly when init resolved:
   * a failed join, or a callback that threw, leaves the sends refused.
   */
  lemma InitEnablesSend<L>(c: Conn, outcome: InitOutcome, callbacks: seq<L>, throws: L -> bool, data: Message)
    ensures var r := Init(c, outcome, callbacks, throws);
            Send(r.conn, data).0 <==> data.msgType == ConfirmedType && r.resolved
  {
    SendSucceedsIffConnected(Init(c, outcome, callbacks, throws).conn, data);
  }

  /**
   * A new object joining the room, with no callback that throws, ends
   * connected with the SDK stored and no players yet.
   */
  lemma FreshInitJoins<L>(callbacks: seq<L>, throws: L -> bool)
    requires FanOut.NoneThrows(callbacks, throws)
    ensures Valid(Fresh)
    ensures var r := Init(Fresh, Joined, callbacks, throws);
            r.resolved && r.conn == Conn(true, true, {})
  {
  }

  /**
   * onDisconnect: mark the object disconnected and tell the connection
   * callbacks so, with the plain forEach that stops at a throwing callback.
   */
  function OnDisconnect<L>(c: Conn, callbacks: seq<L>, throws: L -> bool): (r: (Conn, seq<ConnCall<L>>))
    ensures !r.0.connected
    ensures r.0.sdkLoaded == c.sdkLoaded && r.0.players == c.players
    ensures Valid(r.0)
    ensures r.1 == NotifyConnectionChange(callbacks, false, throws)
    ensures forall i :: 0 <= i < |r.1| ==> !r.1[i].connected
  {
    (c.(connected := false), NotifyConnectionChange(callbacks, false, throws))
  }

  /** After a disconnect no confirmation can be sent, whatever the callbacks do. */
  lemma DisconnectStopsSends<L>(c: Conn, callbacks: seq<L>, throws: L -> bool, data: Message)
    ensures !Send(OnDisconnect(c, callbacks, throws).0, data).0
  {
  }

  /** getPlayerCount: the size of the player map. */
  function GetPlayerCount(c: Conn): (n: nat)
    ensures n == |c.players|
    ensures n == 0 <==> c.players == {}
  {
    |c.players|
  }

  /** onPlayerJoin: record the player; the count grows by one for a new id. */
  function OnPlayerJoin(c: Conn, id: string): (r: Conn)
    ensures r.players == c.players + {id}
    ensures GetPlayerCount(r) == GetPlayerCount(c) + (if id in c.players then 0 else 1)
    ensures r.connected == c.connected && r.sdkLoaded == c.sdkLoaded
  {
    if id in c.players then
      assert c.players + {id} == c.players;
      c
    else
      assert |c.players + {id}| == |c.players| + 1;
      c.(players := c.players + {id})
  }

  /** The player's onQuit: forget the player; the count drops by one for a known id. */
  function OnPlayerQuit(c: Conn, id: string): (r: Conn)
    ensures r.players == c.players - {id}
    ensures GetPlayerCount(r) == GetPlayerCount(c) - (if id in c.players then 1 else 0)
    ensures r.connected == c.connected && r.sdkLoaded == c.sdkLoaded
  {
    if id !in c.players then
      assert c.players - {id} == c.players;
      c
    else
      assert c.players == (c.players - {id}) + {id};
      c.(players := c.players - {id})
  }

  /** A player who joins and then quits leaves the registry as it was. */
  lemma JoinThenQuit(c: Conn, id: string)
    requires id !in c.players
    ensures OnPlayerQuit(OnPlayerJoin(c, id), id) == c
  {
    assert (c.players + {id}) - {id} == c.players;
  }

  /** getIsHost: false until the SDK is stored; then whatever the SDK answers. */
  function GetIsHost(c: Conn, sdkAnswer: bool): (isHost: bool)
    ensures !c.sdkLoaded ==> !isHost
    ensures c.sdkLoaded ==> isHost == sdkAnswer
  {
    c.sdkLoaded && sdkAnswer
  }

  /** A call made on the bus: a confirmation to every other player. */
  datatype RpcCall = ConfirmToOthers(markerId: nat, position: string)

  /** sendMarkerConfirmation: one call to the others when connected with `RPC`, otherwise nothing and false. */
  function SendMarkerConfirmation(c: Conn, markerId: nat, position: string): (r: (bool, seq<RpcCall>))
    ensures r.0 <==> c.connected && c.sdkLoaded
    ensures r.0 ==> r.1 == [ConfirmToOthers(markerId, position)]
    ensures !r.0 ==> r.1 == []
  {
    if !c.connected || !c.sdkLoaded then (false, [])
    else (true, [ConfirmToOthers(markerId, position)])
  }

  /** The `data` argument of the legacy send. */
  datatype Message = Message(msgType: string, markerId: nat, position: string)

  /** The one message type send forwards. */
  const ConfirmedType: string := "marker-confirmed"

  /** send: a confirmation goes through sendMarkerConfirmation; any other type is refused. */
  function Send(c: Conn, data: Message): (r: (bool, seq<RpcCall>))
    ensures data.msgType != ConfirmedType ==> r == (false, [])
    ensures data.msgType == ConfirmedType ==> (r.0 <==> c.connected && c.sdkLoaded)
    ensures r.1 != [] ==> r.0 && r.1 == [ConfirmToOthers(data.markerId, data.position)]
  {
    if data.msgType == ConfirmedType then SendMarkerConfirmation(c, data.markerId, data.position)
    else (false, [])
  }

  /** On any object init or onDisconnect can produce, send succeeds exactly for a confirmation while connected. */
  lemma SendSucceedsIffConnected(c: Conn, data: Message)
    requires Valid(c)
    ensures Send(c, data).0 <==> data.msgType == ConfirmedType && c.connected
  {
  }

  /** How the `marker-confirmed` handler ends. */
  datatype RpcOutcome = ReplyOk | HandlerThrew

  /**
   * The `marker-confirmed` handler: turn the call into a notice carrying the
   * sender's id and deliver it to every listener, isolating their failures.
   * It reads `sender.id` without a guard, so a call with no sender throws
   * before any listener runs.  A sender without an id is `Some("")`.
   */
  method OnMarkerConfirmedCall<L>(listeners: seq<L>, sender: Option<string>, markerId: nat, position: string,
                                  throws: L -> bool)
    returns (outcome: RpcOutcome, notice: Option<Notices.Notice>, called: seq<L>, logged: nat)
    ensures sender.None? ==> outcome == HandlerThrew && notice == None && called == []
    ensures sender.Some? ==> outcome == ReplyOk && called == listeners
                             && notice == Some(Notices.MarkerConfirmed(markerId, position, sender.value))
                             && logged == FanOut.CountThrowing(listeners, throws)
  {
    if sender.None? {
      outcome, notice, called, logged := HandlerThrew, None, [], 0;
      return;
    }
    notice := Some(Notices.MarkerConfirmed(markerId, position, sender.value));
    called, logged := FanOut.NotifyListeners(listeners, throws);
    outcome := ReplyOk;
  }

  /** A call of a connection callback with a connection state. */
  datatype ConnCall<L> = ConnCall(callback: L, connected: bool)

  /** onConnectionChange: register the callback and call it once, at once, with the current state. */
  function OnConnectionChange<L>(callbacks: seq<L>, c: Conn, cb: L): (r: (seq<L>, seq<ConnCall<L>>))
    ensures |r.0| == |callbacks| + 1 && r.0[..|callbacks|] == callbacks && r.0[|callbacks|] == cb
    ensures r.1 == [ConnCall(cb, c.connected)]
  {
    (FanOut.Subscribe(callbacks, cb), [ConnCall(cb, c.connected)])
  }

  /**
   * notifyConnectionChange: a plain forEach, so the callbacks run in order
   * with the new state until one throws, and the rest are skipped.
   */
  function NotifyConnectionChange<L>(callbacks: seq<L>, connected: bool, throws: L -> bool): (calls: seq<ConnCall<L>>)
    ensures |calls| <= |callbacks|
    ensures forall i :: 0 <= i < |calls| ==> calls[i] == ConnCall(callbacks[i], connected)
    ensures forall i :: 0 <= i < |calls| - 1 ==> !throws(callbacks[i])
    ensures |calls| < |callbacks| ==> |calls| > 0 && throws(callbacks[|calls| - 1])
    ensures FanOut.NoneThrows(callbacks, throws) <==> |calls| == |callbacks| && (|calls| == 0 || !throws(callbacks[|calls| - 1]))
  {
    var reached := FanOut.DeliverUnguarded(callbacks, throws).0;
    seq(|reached|, (i: int) requires 0 <= i < |reached| => ConnCall(reached[i], connected))
  }

  /**
   * A callback registered with onConnectionChange hears the state twice in
   * a row when none of the callbacks throws: once on registration, and
   * once, last, on the next change.
   */
  lemma RegisteredCallbackHearsNextChange<L>(callbacks: seq<L>, c: Conn, cb: L, next: bool, throws: L -> bool)
    requires FanOut.NoneThrows(callbacks, throws)
    requires !throws(cb)
    ensures var reg := OnConnectionChange(callbacks, c, cb);
            var later := NotifyConnectionChange(reg.0, next, throws);
            && reg.1 == [ConnCall(cb, c.connected)]
            && |later| == |callbacks| + 1
            && later[|callbacks|] == ConnCall(cb, next)
  {
    var reg := OnConnectionChange(callbacks, c, cb);
    assert FanOut.NoneThrows(reg.0, throws) by {
      forall i | 0 <= i < |reg.0|
        ensures !throws(reg.0[i])
      {
        if i < |callbacks| {
          assert reg.0[i] == reg.0[..|callbacks|][i] == callbacks[i];
        }
      }
    }
  }
}
