/** The signalling relay of the server: a registry from room name to the
    set of connected endpoints in it, and the three socket handlers. Each
    handler returns the next registry and the set of deliveries it emits;
    nothing is queued for endpoints that are not in the room yet. */
module Relay {

  type EndpointId = string
  type RoomId = string
  /** A signalling payload, relayed without being looked at. */
  type Payload = string

  /** Events the relay sends to an endpoint. */
  datatype Message = UserConnected(userId: EndpointId) | Signal(signal: Payload, senderId: EndpointId)

  datatype Delivery = Delivery(to: EndpointId, message: Message)

  datatype Registry = Registry(rooms: map<RoomId, set<EndpointId>>)

  datatype Reaction = Reaction(next: Registry, out: set<Delivery>)

  /** Events the relay receives from the endpoint `from`. */
  datatype Event =
    | JoinRoom(from: EndpointId, room: RoomId)
    | SignalIn(from: EndpointId, room: RoomId, signal: Payload)
    | Disconnected(from: EndpointId)

  /** Rooms exist only while they have members. */
  predicate Valid(r: Registry)
  {
    forall room | room in r.rooms :: r.rooms[room] != {}
  }

  function Members(r: Registry, room: RoomId): set<EndpointId>
  {
    if room in r.rooms then r.rooms[room] else {}
  }

  /** `socket.to(room).emit(...)`: the message to every member but `except`. */
  function Fanout(members: set<EndpointId>, except: EndpointId, m: Message): (out: set<Delivery>)
    ensures forall d :: d in out <==> d.message == m && d.to in members && d.to != except
  {
    set to | to in members && to != except :: Delivery(to, m)
  }

  /** `join-room`: the joiner becomes a member (a set, so joining again adds
      nothing) and every other member is told, on every join. */
  function Join(r: Registry, who: EndpointId, room: RoomId): (res: Reaction)
    ensures Members(res.next, room) == Members(r, room) + {who}
    ensures forall other | other != room :: Members(res.next, other) == Members(r, other)
    ensures forall d :: d in res.out <==>
              d.message == UserConnected(who) && d.to in Members(r, room) && d.to != who
    ensures Valid(r) ==> Valid(res.next)
  {
    var joined := Members(r, room) + {who};
    Reaction(Registry(r.rooms[room := joined]), Fanout(joined, who, UserConnected(who)))
  }

  /** `signal`: the payload and the sender's id go to every member of the
      named room except the sender, whether or not the sender is a member;
      membership does not change. */
  function RelaySignal(r: Registry, who: EndpointId, room: RoomId, signal: Payload): (res: Reaction)
    ensures res.next == r
    ensures forall d :: d in res.out <==>
              d.message == Signal(signal, who) && d.to in Members(r, room) && d.to != who
  {
    Reaction(r, Fanout(Members(r, room), who, Signal(signal, who)))
  }

  /** `disconnect`: the socket layer takes the endpoint out of every room and
      drops rooms left empty; the handler itself emits nothing. */
  function Disconnect(r: Registry, who: EndpointId): (res: Reaction)
    ensures res.out == {}
    ensures forall room :: Members(res.next, room) == Members(r, room) - {who}
    ensures Valid(res.next)
  {
    var rooms := map room | room in r.rooms && r.rooms[room] - {who} != {} :: r.rooms[room] - {who};
    Reaction(Registry(rooms), {})
  }

  function Handle(r: Registry, ev: Event): (res: Reaction)
    ensures Valid(r) ==> Valid(res.next)
    ensures !ev.Disconnected? ==>
              forall d | d in res.out :: d.to in Members(r, ev.room) && d.to != ev.from
    ensures ev.Disconnected? ==> res.out == {}
  {
    match ev
    case JoinRoom(who, room) => Join(r, who, room)
    case SignalIn(who, room, signal) => RelaySignal(r, who, room, signal)
    case Disconnected(who) => Disconnect(r, who)
  }

  /** Joining twice leaves the same membership as joining once, yet the
      second join notifies the other members again. */
  lemma RejoinSameMembersNotifiesAgain(r: Registry, who: EndpointId, room: RoomId, other: EndpointId)
    requires other in Members(r, room) && other != who
    ensures var once := Join(r, who, room).next;
            var twice := Join(once, who, room);
            && twice.next.rooms == once.rooms
            && Delivery(other, UserConnected(who)) in twice.out
  {
    var once := Join(r, who, room).next;
    assert Members(once, room) + {who} == Members(once, room);
    assert once.rooms[room := Members(once, room)] == once.rooms;
  }

  /** The pairing scenario: A joins an empty room and nobody is told; B
      joins next and exactly A is told, once, that B connected; B is told
      nothing. */
  lemma Pairing(r: Registry, a: EndpointId, b: EndpointId, room: RoomId)
    requires Members(r, room) == {} && a != b
    ensures Join(r, a, room).out == {}
    ensures Join(Join(r, a, room).next, b, room).out == {Delivery(a, UserConnected(b))}
  {
    var first := Join(r, a, room);
    assert forall d :: d !in first.out;
    var second := Join(first.next, b, room);
    assert Members(first.next, room) == {a};
    assert Delivery(a, UserConnected(b)) in second.out;
  }

  /** Nothing is buffered: a signal sent while B is not in the room never
      reaches B, neither then nor when B joins afterwards. */
  lemma SignalNotBuffered(r: Registry, a: EndpointId, b: EndpointId, room: RoomId, p: Payload)
    requires b !in Members(r, room)
    ensures forall d | d in RelaySignal(r, a, room, p).out :: d.to != b
    ensures var later := Join(RelaySignal(r, a, room, p).next, b, room);
            forall d | d in later.out :: d.to != b && d.message.UserConnected?
  {
  }

  /** A signal reaches no endpoint outside the named room. */
  lemma SignalIsolation(r: Registry, a: EndpointId, room: RoomId, p: Payload, x: EndpointId)
    requires x !in Members(r, room)
    ensures forall m :: Delivery(x, m) !in RelaySignal(r, a, room, p).out
  {
  }
}
