/** The part of socket.io's behaviour the chat server relies on: which
    connections are in which room, and who receives an event emitted with
    `socket.to(room)`, `io.to(room)` or `socket.emit`.

    Every live connection is implicitly a member of a room named after its
    own id, so `socket.to(id)` addresses a single connection. */
module SocketIo {

  type ConnId = string

  /** The adapter state: explicit rooms created by `socket.join`, and the
      set of live connections (each of which is in its own room). */
  datatype Adapter = Adapter(rooms: map<string, set<ConnId>>, live: set<ConnId>)

  /** Explicit rooms only hold live connections. */
  ghost predicate Sound(a: Adapter)
  {
    forall r :: r in a.rooms ==> a.rooms[r] <= a.live
  }

  /** Everybody currently in room `room`. */
  function Members(a: Adapter, room: string): (m: set<ConnId>)
    ensures Sound(a) ==> m <= a.live
    ensures room in a.live ==> room in m
  {
    (if room in a.rooms then a.rooms[room] else {}) + (if room in a.live then {room} else {})
  }

  /** A connection accepted by the server; it starts in its own room only. */
  function Connect(a: Adapter, id: ConnId): (b: Adapter)
    ensures b.live == a.live + {id}
    ensures forall r :: r != id ==> Members(b, r) == Members(a, r)
    ensures id in Members(b, id)
  {
    a.(live := a.live + {id})
  }

  /** `socket.join(room)`: adding the connection again is harmless. */
  function Join(a: Adapter, id: ConnId, room: string): (b: Adapter)
    ensures b.live == a.live
    ensures Members(b, room) == Members(a, room) + {id}
    ensures forall r :: r != room ==> Members(b, r) == Members(a, r)
    ensures Sound(a) && id in a.live ==> Sound(b)
  {
    var members := if room in a.rooms then a.rooms[room] else {};
    a.(rooms := a.rooms[room := members + {id}])
  }

  /** What the transport does when a connection closes, before the
      `disconnect` handler runs: the connection leaves every room. */
  function LeaveAll(a: Adapter, id: ConnId): (b: Adapter)
    ensures b.live == a.live - {id}
    ensures forall r :: Members(b, r) == Members(a, r) - {id}
    ensures Sound(a) ==> Sound(b)
  {
    Adapter(map r | r in a.rooms :: a.rooms[r] - {id}, a.live - {id})
  }

  /** How an event is addressed by the emitting handler. */
  datatype Target =
    | ToRoom(room: string)   // socket.to(room).emit: the room minus the sender
    | ToAll(room: string)    // io.to(room).emit: every member of the room
    | ToSelf                 // socket.emit: the sender alone

  datatype Emit<E> = Emit(target: Target, event: E)

  /** The connections `socket.to` leaves out: socket.io excepts every
      member of the room named after the sender's id, which holds the
      sender itself while it is connected. A closed connection is in no
      room, so leaving out the sender as well changes nothing for it. */
  function Excepted(a: Adapter, sender: ConnId): (x: set<ConnId>)
    ensures sender in x && Members(a, sender) <= x
  {
    Members(a, sender) + {sender}
  }

  /** The connections an emit reaches. */
  function Recipients(a: Adapter, sender: ConnId, t: Target): (rs: set<ConnId>)
    ensures t.ToRoom? ==> sender !in rs && rs !! Members(a, sender)
    ensures t.ToRoom? && Addressable(a, sender) ==> rs == Members(a, t.room) - {sender}
    ensures t.ToAll? && sender in Members(a, t.room) ==> sender in rs
    ensures t.ToSelf? ==> rs <= {sender}
    ensures t.ToSelf? && sender in a.live ==> rs == {sender}
    ensures Sound(a) ==> rs <= a.live
  {
    match t
    case ToRoom(r) => Members(a, r) - Excepted(a, sender)
    case ToAll(r) => Members(a, r)
    case ToSelf => if sender in a.live then {sender} else {}
  }

  /** The events connection `c` receives, in order, when the handler run
      for `sender` emits `out`. */
  function Received<E>(a: Adapter, sender: ConnId, out: seq<Emit<E>>, c: ConnId): (r: seq<E>)
    ensures |r| <= |out|
    ensures forall e :: e in r ==> exists k :: 0 <= k < |out| && out[k].event == e
  {
    if out == [] then []
    else
      var last := out[|out| - 1];
      Received(a, sender, out[..|out| - 1], c)
        + (if c in Recipients(a, sender, last.target) then [last.event] else [])
  }

  /** Emitting in two steps delivers the two parts one after the other. */
  lemma {:induction false} ReceivedAppend<E>(a: Adapter, sender: ConnId, xs: seq<Emit<E>>, ys: seq<Emit<E>>, c: ConnId)
    ensures Received(a, sender, xs + ys, c) == Received(a, sender, xs, c) + Received(a, sender, ys, c)
    decreases |ys|
  {
    if ys == [] {
      assert xs + ys == xs;
    } else {
      var ys' := ys[..|ys| - 1];
      assert (xs + ys)[..|xs + ys| - 1] == xs + ys';
      ReceivedAppend(a, sender, xs, ys', c);
    }
  }

  /** A connection receives from a one-event emission exactly when it is a
      recipient. */
  lemma ReceivedOne<E>(a: Adapter, sender: ConnId, e: Emit<E>, c: ConnId)
    ensures Received(a, sender, [e], c) == if c in Recipients(a, sender, e.target) then [e.event] else []
  {
    assert [e][..0] == [];
  }

  /** Unfolding `Received` over the short literal emission lists the
      handlers produce. */
  lemma ReceivedTwo<E>(a: Adapter, sender: ConnId, e1: Emit<E>, e2: Emit<E>, c: ConnId)
    ensures Received(a, sender, [e1, e2], c)
         == (if c in Recipients(a, sender, e1.target) then [e1.event] else [])
          + (if c in Recipients(a, sender, e2.target) then [e2.event] else [])
  {
    assert [e1, e2] == [e1] + [e2];
    ReceivedAppend(a, sender, [e1], [e2], c);
    ReceivedOne(a, sender, e1, c);
    ReceivedOne(a, sender, e2, c);
  }

  lemma ReceivedThree<E>(a: Adapter, sender: ConnId, e1: Emit<E>, e2: Emit<E>, e3: Emit<E>, c: ConnId)
    ensures Received(a, sender, [e1, e2, e3], c)
         == (if c in Recipients(a, sender, e1.target) then [e1.event] else [])
          + (if c in Recipients(a, sender, e2.target) then [e2.event] else [])
          + (if c in Recipients(a, sender, e3.target) then [e3.event] else [])
  {
    assert [e1, e2, e3] == [e1, e2] + [e3];
    ReceivedAppend(a, sender, [e1, e2], [e3], c);
    ReceivedTwo(a, sender, e1, e2, c);
    ReceivedOne(a, sender, e3, c);
  }

  /** A handler that only uses `socket.to` never echoes to its sender. */
  lemma {:induction false} NoEchoToSender<E>(a: Adapter, sender: ConnId, out: seq<Emit<E>>)
    requires forall k :: 0 <= k < |out| ==> out[k].target.ToRoom?
    ensures Received(a, sender, out, sender) == []
  {
    if out != [] {
      NoEchoToSender(a, sender, out[..|out| - 1]);
    }
  }

  /** A connection's own room holds just that connection, unless some
      other connection explicitly joined a room of the same name. */
  predicate Addressable(a: Adapter, id: ConnId)
  {
    id in a.live && (id in a.rooms ==> a.rooms[id] <= {id})
  }

  lemma AddressableMembers(a: Adapter, id: ConnId)
    requires Addressable(a, id)
    ensures Members(a, id) == {id}
    ensures Excepted(a, id) == {id}
  {
  }
}
