/** The rendezvous side of the hook: the connection status, the peer object
    and which role it was created in, the messages sent to the relay, and the
    routing of peer data, timers and speed ticks to the transfer engine.
    Socket and peer callbacks are events; the relay connection exists only
    while a room is set, so relay events without a room are not delivered. */
module Connection {
  import opened Prelude
  import Session
  import Receiver

  datatype Status = Idle | Waiting | Connected | Error

  /** A signalling payload, opaque to this layer. */
  type Signal = string

  /** The peer object: whether it was created as the initiator, and the
      signals handed to it (`peer.signal`) so far. */
  datatype Peer = Peer(initiator: bool, fed: seq<Signal>)

  /** Messages emitted to the relay. */
  datatype ToRelay = JoinRoom(room: string) | SignalOut(room: string, signal: Signal)

  datatype Client = Client(
    room: Option<string>,
    status: Status,
    peer: Option<Peer>,
    outbox: seq<ToRelay>,
    engine: Session.Engine,
    downloads: seq<Receiver.Download>,
    clearArmed: nat)                           // receiver clean-up timers still pending

  /** The hook mounted with no room. */
  const Start: Client := Client(None, Idle, None, [], Session.Fresh, [], 0)

  /** Whether the hook has a room to connect to: `!roomId` holds for a
      missing room and for the empty code alike. */
  predicate Joined(room: Option<string>)
  {
    room.Some? && room.value != ""
  }

  datatype Event =
    | RoomChanged(room: Option<string>)        // the `roomId` argument changed
    | SocketConnected                          // relay connection established
    | UserConnected(userId: string)            // relay: another endpoint joined
    | SignalReceived(signal: Signal, senderId: string)
    | PeerSignal(signal: Signal)               // the peer produced a payload
    | PeerConnected
    | PeerData(data: seq<byte>, nowMs: int)
    | PeerError
    | PeerClosed
    | ClearTimerFired                          // a receiver 3-second timer elapsed
    | Tick(nowMs: int)                         // the speed sampler's interval

  /** One event. `parse` stands for `JSON.parse` of control messages. */
  function Step(c: Client, ev: Event, parse: seq<byte> -> Receiver.Parsed): (r: Client)
    ensures ev.RoomChanged? && ev.room == c.room ==> r == c
    ensures ev.RoomChanged? && ev.room != c.room ==>
              && r.room == ev.room && r.peer.None?
              && r.status == (if Joined(ev.room) then Waiting else Idle)
              && r.engine == c.engine
    ensures ev.SocketConnected? ==>
              r.outbox == c.outbox + (if Joined(c.room) then [JoinRoom(c.room.value)] else [])
    ensures ev.UserConnected? ==>
              r.peer == (if Joined(c.room) && c.peer.None? then Some(Peer(true, [])) else c.peer)
    ensures ev.SignalReceived? && Joined(c.room) ==>
              && r.peer.Some?
              && r.peer.value.initiator == (c.peer.Some? && c.peer.value.initiator)
              && r.peer.value.fed == (if c.peer.Some? then c.peer.value.fed else []) + [ev.signal]
    ensures ev.SignalReceived? && !Joined(c.room) ==> r == c
    ensures ev.PeerSignal? ==>
              r.outbox == c.outbox + (if Joined(c.room) && c.peer.Some?
                                      then [SignalOut(c.room.value, ev.signal)] else [])
    ensures ev.PeerConnected? ==> r == c.(status := Connected)
    ensures ev.PeerData? ==>
              var reaction := Receiver.HandleData(c.engine, ev.data, parse, ev.nowMs);
              && r.engine == reaction.next
              && r.downloads == c.downloads + (if reaction.download.Some? then [reaction.download.value] else [])
              && r.clearArmed == c.clearArmed + (if reaction.armsClear then 1 else 0)
    ensures ev.PeerError? ==> r == c.(status := Error)
    ensures ev.PeerClosed? ==>
              && r.status == Waiting && r.peer.None? && r.engine.transfer.None?
              && r.engine.(transfer := c.engine.transfer) == c.engine
              && r.room == c.room
    ensures ev.ClearTimerFired? && c.clearArmed == 0 ==> r == c
    ensures ev.ClearTimerFired? && c.clearArmed > 0 ==>
              r.engine == Receiver.ClearTimerFired(c.engine) && r.clearArmed == c.clearArmed - 1
    ensures !ev.RoomChanged? && !ev.PeerConnected? && !ev.PeerError? && !ev.PeerClosed? ==>
              r.status == c.status && r.room == c.room
    ensures c.peer.Some? && !ev.RoomChanged? && !ev.PeerClosed? ==>
              r.peer.Some? && r.peer.value.initiator == c.peer.value.initiator
  {
    match ev
    case RoomChanged(room) =>
      if room == c.room then c
      else c.(room := room, peer := None, status := if Joined(room) then Waiting else Idle)
    case SocketConnected =>
      if !Joined(c.room) then c else c.(outbox := c.outbox + [JoinRoom(c.room.value)])
    case UserConnected(_) =>
      if !Joined(c.room) || c.peer.Some? then c else c.(peer := Some(Peer(true, [])))
    case SignalReceived(signal, _) =>
      if !Joined(c.room) then c
      else
        var p := if c.peer.Some? then c.peer.value else Peer(false, []);
        c.(peer := Some(p.(fed := p.fed + [signal])))
    case PeerSignal(signal) =>
      if !Joined(c.room) || c.peer.None? then c
      else c.(outbox := c.outbox + [SignalOut(c.room.value, signal)])
    case PeerConnected => c.(status := Connected)
    case PeerData(data, nowMs) =>
      var reaction := Receiver.HandleData(c.engine, data, parse, nowMs);
      c.(engine := reaction.next,
         downloads := c.downloads + (if reaction.download.Some? then [reaction.download.value] else []),
         clearArmed := c.clearArmed + (if reaction.armsClear then 1 else 0))
    case PeerError => c.(status := Error)
    case PeerClosed =>
      c.(status := Waiting, peer := None, engine := c.engine.(transfer := None))
    case ClearTimerFired =>
      if c.clearArmed == 0 then c
      else c.(engine := Receiver.ClearTimerFired(c.engine), clearArmed := c.clearArmed - 1)
    case Tick(nowMs) => c.(engine := Session.Tick(c.engine, nowMs))
  }

  function Run(c: Client, evs: seq<Event>, parse: seq<byte> -> Receiver.Parsed): Client
    decreases |evs|
  {
    if evs == [] then c else Run(Step(c, evs[0], parse), evs[1..], parse)
  }

  /** A peer only exists while the hook has a room to connect to, and every
      pending clean-up timer was armed by a completed download. */
  predicate Consistent(c: Client)
  {
    && (c.peer.Some? ==> Joined(c.room))
    && c.clearArmed <= |c.downloads|
  }

  lemma {:induction false} RunKeepsConsistent(c: Client, evs: seq<Event>, parse: seq<byte> -> Receiver.Parsed)
    requires Consistent(c)
    ensures Consistent(Run(c, evs, parse))
    decreases |evs|
  {
    if evs != [] {
      RunKeepsConsistent(Step(c, evs[0], parse), evs[1..], parse);
    }
  }

  /** Whatever events arrive, a client that started out with no room (or the
      empty code) and no peer emits to the relay only after a room is set. */
  lemma {:induction false} NoRoomNoOutbox(c: Client, evs: seq<Event>, parse: seq<byte> -> Receiver.Parsed)
    requires !Joined(c.room) && c.peer.None?
    requires forall k | 0 <= k < |evs| :: !evs[k].RoomChanged?
    ensures Run(c, evs, parse).outbox == c.outbox
    ensures Run(c, evs, parse).peer.None?
    decreases |evs|
  {
    if evs != [] {
      NoRoomNoOutbox(Step(c, evs[0], parse), evs[1..], parse);
    }
  }

  /** The role is decided by whichever relay event reaches a peerless client
      first: `user-connected` first makes it the initiator, `signal` first
      the responder; the second event never replaces the peer, and the
      signal is handed to the peer either way. */
  lemma RoleByFirstEvent(c: Client, u: string, s: Signal, sender: string,
                         parse: seq<byte> -> Receiver.Parsed)
    requires Joined(c.room) && c.peer.None?
    ensures Run(c, [UserConnected(u), SignalReceived(s, sender)], parse).peer == Some(Peer(true, [s]))
    ensures Run(c, [SignalReceived(s, sender), UserConnected(u)], parse).peer == Some(Peer(false, [s]))
  {
    var evs1 := [UserConnected(u), SignalReceived(s, sender)];
    var c1 := Step(c, UserConnected(u), parse);
    assert evs1[1..] == [SignalReceived(s, sender)];
    assert Run(c, evs1, parse) == Run(c1, [SignalReceived(s, sender)], parse);
    assert Run(c1, [SignalReceived(s, sender)], parse) == Step(c1, SignalReceived(s, sender), parse);
    assert c1.peer == Some(Peer(true, [])) && Joined(c1.room);
    assert Step(c1, SignalReceived(s, sender), parse).peer.value.fed == [] + [s] == [s];
    var evs2 := [SignalReceived(s, sender), UserConnected(u)];
    var c2 := Step(c, SignalReceived(s, sender), parse);
    assert evs2[1..] == [UserConnected(u)];
    assert Run(c, evs2, parse) == Run(c2, [UserConnected(u)], parse);
    assert Run(c2, [UserConnected(u)], parse) == Step(c2, UserConnected(u), parse);
  }

  /** Leaving the room gives `idle`, but the peer it destroys still fires its
      `close` handler, which sets `waiting` although no room is set. */
  lemma LeaveThenStaleClose(c: Client, parse: seq<byte> -> Receiver.Parsed)
    requires c.room.Some?
    ensures Step(c, RoomChanged(None), parse).status == Idle
    ensures var r := Run(c, [RoomChanged(None), PeerClosed], parse);
            r.status == Waiting && r.room.None?
  {
    var evs := [RoomChanged(None), PeerClosed];
    assert evs[1..] == [PeerClosed];
  }

  /** The empty code counts as no room: switching to it gives `idle`, and a
      later relay connection joins nothing. */
  lemma EmptyCodeOpensNothing(c: Client, parse: seq<byte> -> Receiver.Parsed)
    requires c.room != Some("")
    ensures Step(c, RoomChanged(Some("")), parse).status == Idle
    ensures var r := Run(c, [RoomChanged(Some("")), SocketConnected], parse);
            r.outbox == c.outbox && r.peer.None?
  {
    var evs := [RoomChanged(Some("")), SocketConnected];
    assert evs[1..] == [SocketConnected];
  }
}
