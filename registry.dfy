/** The session registry's pure parts: member lookups, the edits the
    handlers make to a member list, and the events each handler emits
    (presence notices and the message router's delivery decision). */
module Registry {
  import opened SocketIo
  import opened Protocol

  /** `users.some(u => u.id === id)` */
  predicate HasId(users: seq<User>, id: ConnId)
  {
    exists k :: 0 <= k < |users| && users[k].id == id
  }

  /** No connection is listed twice in a session. */
  predicate UniqueIds(users: seq<User>)
  {
    forall i, j :: 0 <= i < j < |users| ==> users[i].id != users[j].id
  }

  /** `users.findIndex(u => u.id === id)`: the first entry of that
      connection, or -1. */
  function IndexOfId(users: seq<User>, id: ConnId): (i: int)
    ensures -1 <= i < |users|
    ensures i >= 0 ==> users[i].id == id && forall j :: 0 <= j < i ==> users[j].id != id
    ensures i == -1 <==> !HasId(users, id)
  {
    if users == [] then -1
    else if users[0].id == id then 0
    else
      var j := IndexOfId(users[1..], id);
      assert forall k :: 1 <= k < |users| ==> users[k] == users[1..][k - 1];
      if j == -1 then -1 else j + 1
  }

  /** `users.find(u => u.name === name)`, as an index: the first member
      with that display name, or -1. */
  function IndexOfName(users: seq<User>, name: string): (i: int)
    ensures -1 <= i < |users|
    ensures i >= 0 ==> users[i].name == name && forall j :: 0 <= j < i ==> users[j].name != name
    ensures i == -1 <==> forall j :: 0 <= j < |users| ==> users[j].name != name
  {
    if users == [] then -1
    else if users[0].name == name then 0
    else
      var j := IndexOfName(users[1..], name);
      assert forall k :: 1 <= k < |users| ==> users[k] == users[1..][k - 1];
      if j == -1 then -1 else j + 1
  }

  /** The entry a freshly joined connection gets. */
  function NewUser(id: ConnId, name: string): User
  {
    User(id, name, Online, false)
  }

  /** The member list after `users.splice(users.findIndex(...), 1)`, guarded
      by the `userIndex !== -1` test. */
  function DropUser(users: seq<User>, id: ConnId): (r: seq<User>)
    ensures !HasId(users, id) ==> r == users
    ensures HasId(users, id) ==> |r| == |users| - 1
  {
    var i := IndexOfId(users, id);
    if i == -1 then users else users[..i] + users[i + 1..]
  }

  /** An independent reference: the member list with every entry of the
      connection filtered out. */
  function Without(users: seq<User>, id: ConnId): (r: seq<User>)
  {
    if users == [] then []
    else (if users[0].id == id then [] else [users[0]]) + Without(users[1..], id)
  }

  lemma {:induction false} WithoutAbsent(users: seq<User>, id: ConnId)
    requires !HasId(users, id)
    ensures Without(users, id) == users
  {
    if users != [] {
      assert users[0].id != id;
      assert !HasId(users[1..], id) by {
        forall k | 0 <= k < |users[1..]| ensures users[1..][k].id != id {
          assert users[1..][k] == users[k + 1];
        }
      }
      WithoutAbsent(users[1..], id);
      assert users == [users[0]] + users[1..];
    }
  }

  /** Where the entries of the member list end up after the splice. */
  lemma DropUserAt(users: seq<User>, id: ConnId, p: nat)
    requires IndexOfId(users, id) != -1 && p < |users| - 1
    ensures var i := IndexOfId(users, id);
      |DropUser(users, id)| == |users| - 1 && DropUser(users, id)[p] == users[if p < i then p else p + 1]
  {
    var i := IndexOfId(users, id);
    var r := users[..i] + users[i + 1..];
    if p < i {
      assert r[p] == users[..i][p];
    } else {
      assert r[p] == users[i + 1..][p - i];
    }
  }

  /** With unique ids, removing the first entry of a connection removes
      all of them, keeps the others unique, and keeps their order. */
  lemma DropUserRemovesAll(users: seq<User>, id: ConnId)
    requires UniqueIds(users)
    ensures !HasId(DropUser(users, id), id)
    ensures UniqueIds(DropUser(users, id))
  {
    var i := IndexOfId(users, id);
    if i != -1 {
      var r := DropUser(users, id);
      forall p | 0 <= p < |r| ensures r[p].id != id {
        DropUserAt(users, id, p);
        var q := if p < i then p else p + 1;
        if q < i {
          assert users[q].id != users[i].id;
        } else {
          assert users[i].id != users[q].id;
        }
      }
      forall p, q | 0 <= p < q < |r| ensures r[p].id != r[q].id {
        DropUserAt(users, id, p);
        DropUserAt(users, id, q);
        var p', q' := if p < i then p else p + 1, if q < i then q else q + 1;
        assert users[p'].id != users[q'].id;
      }
    }
  }

  /** Splicing out entry `j + 1` of a list splices out entry `j` of its
      tail. */
  lemma SpliceTail(users: seq<User>, j: nat)
    requires j + 1 < |users|
    ensures users[..j + 1] + users[j + 2..] == [users[0]] + (users[1..][..j] + users[1..][j + 1..])
  {
    assert users[..j + 1] == [users[0]] + users[1..][..j];
    assert users[j + 2..] == users[1..][j + 1..];
  }

  /** Removing a connection from a list that starts with somebody else
      keeps that first entry. */
  lemma DropUserTail(users: seq<User>, id: ConnId)
    requires users != [] && users[0].id != id
    ensures DropUser(users, id) == [users[0]] + DropUser(users[1..], id)
  {
    var j := IndexOfId(users[1..], id);
    assert IndexOfId(users, id) == if j == -1 then -1 else j + 1;
    if j != -1 {
      SpliceTail(users, j);
    } else {
      assert users == [users[0]] + users[1..];
    }
  }

  /** `disconnect`'s removal agrees with the filtering reference. */
  lemma {:induction false} DropUserIsWithout(users: seq<User>, id: ConnId)
    requires UniqueIds(users)
    ensures DropUser(users, id) == Without(users, id)
  {
    if users != [] {
      var tl := users[1..];
      assert users == [users[0]] + tl;
      assert UniqueIds(tl) by {
        forall i, j | 0 <= i < j < |tl| ensures tl[i].id != tl[j].id {
          assert tl[i] == users[i + 1] && tl[j] == users[j + 1];
        }
      }
      if users[0].id == id {
        assert !HasId(tl, id) by {
          forall k | 0 <= k < |tl| ensures tl[k].id != id {
            assert tl[k] == users[k + 1];
          }
        }
        WithoutAbsent(tl, id);
        assert IndexOfId(users, id) == 0;
        assert users[..0] + users[1..] == tl;
      } else {
        DropUserIsWithout(tl, id);
        DropUserTail(users, id);
      }
    }
  }

  /** The member list after `user.isTyping = typing` on the first member
      named `name`; a name nobody has changes nothing. */
  function MarkTyping(users: seq<User>, name: string, typing: bool): (r: seq<User>)
    ensures |r| == |users|
    ensures var i := IndexOfName(users, name);
      forall j :: 0 <= j < |users| ==>
        r[j] == if j == i then users[j].(isTyping := typing) else users[j]
  {
    var i := IndexOfName(users, name);
    if i == -1 then users else users[i := users[i].(isTyping := typing)]
  }

  /** Marking a member as typing never changes who is in the session. */
  lemma MarkTypingKeepsIds(users: seq<User>, name: string, typing: bool, id: ConnId)
    ensures HasId(MarkTyping(users, name, typing), id) == HasId(users, id)
    ensures UniqueIds(users) ==> UniqueIds(MarkTyping(users, name, typing))
  {
    var r := MarkTyping(users, name, typing);
    if HasId(users, id) {
      var k :| 0 <= k < |users| && users[k].id == id;
      assert r[k].id == id;
    }
    if HasId(r, id) {
      var k :| 0 <= k < |r| && r[k].id == id;
      assert users[k].id == id;
    }
  }

  // ----- Presence notices -----

  /** A first join: `userJoined` to the others, `userCountUpdate` to the
      whole room, `usersList` to the joiner. `users` already holds the
      joiner as its last entry. */
  function JoinEvents(sid: SessionId, users: seq<User>): (out: seq<Emit<Outbound>>)
    requires users != []
    ensures |out| == 3
    ensures forall k :: 0 <= k < |out| ==>
      out[k].target == ToRoom(sid) || out[k].target == ToAll(sid) || out[k].target == ToSelf
  {
    [ Emit(ToRoom(sid), UserJoined(users[|users| - 1])),
      Emit(ToAll(sid), UserCountUpdate(|users|)),
      Emit(ToSelf, UsersList(users)) ]
  }

  /** What a first join delivers to each connection, once the joiner is in
      the session's room. A connection that also sits in the room named
      after the joiner's id is left out of `socket.to` and gets the count
      alone. */
  lemma JoinDelivery(a: Adapter, sid: SessionId, users: seq<User>, joiner: ConnId, c: ConnId)
    requires users != [] && users[|users| - 1].id == joiner
    requires joiner in a.live && joiner in Members(a, sid)
    ensures Received(a, joiner, JoinEvents(sid, users), c)
         == if c == joiner then [UserCountUpdate(|users|), UsersList(users)]
            else if c in Members(a, sid) then
              (if c in Members(a, joiner) then [] else [UserJoined(users[|users| - 1])]) + [UserCountUpdate(|users|)]
            else []
    ensures c == joiner ==> HasId(users, joiner)
  {
    var evs := JoinEvents(sid, users);
    ReceivedThree(a, joiner, evs[0], evs[1], evs[2], c);
    if c == joiner {
      assert users[|users| - 1].id == joiner;
    }
  }

  /** The session's notices when connection `id` disconnects: one
      `userLeft` for the others and one `userCountUpdate` with the new
      length, or nothing when the connection is not a member. */
  function LeaveEvents(sid: SessionId, users: seq<User>, id: ConnId): (out: seq<Emit<Outbound>>)
    ensures |out| == if HasId(users, id) then 2 else 0
    ensures forall k :: 0 <= k < |out| ==> out[k].target == ToRoom(sid) || out[k].target == ToAll(sid)
  {
    var i := IndexOfId(users, id);
    if i == -1 then []
    else [ Emit(ToRoom(sid), UserLeft(users[i])), Emit(ToAll(sid), UserCountUpdate(|users| - 1)) ]
  }

  /** What one session's departure notices deliver, once the transport has
      taken the leaver out of every room: the leaver receives nothing, each
      remaining member of the room receives the departure and the count
      (only the count when it also sits in a room named after the leaver's
      id, which `socket.to` excepts). */
  lemma LeaveDelivery(a: Adapter, sid: SessionId, users: seq<User>, id: ConnId, c: ConnId)
    requires id !in Members(a, sid)
    ensures var i := IndexOfId(users, id);
      Received(a, id, LeaveEvents(sid, users, id), c)
        == if i != -1 && c in Members(a, sid)
           then (if c in Members(a, id) then [] else [UserLeft(users[i])]) + [UserCountUpdate(|users| - 1)]
           else []
    ensures Received(a, id, LeaveEvents(sid, users, id), id) == []
  {
    var i := IndexOfId(users, id);
    if i != -1 {
      var evs := LeaveEvents(sid, users, id);
      ReceivedTwo(a, id, evs[0], evs[1], c);
      ReceivedTwo(a, id, evs[0], evs[1], id);
    }
  }

  /** The typing notice: to everybody in the room but the typist, and only
      when some member has that display name. */
  function TypingEvents(sid: SessionId, users: seq<User>, username: string, typing: bool): (out: seq<Emit<Outbound>>)
    ensures |out| <= 1
    ensures |out| == 1 <==> exists j :: 0 <= j < |users| && users[j].name == username
    ensures forall k :: 0 <= k < |out| ==> out[k].target == ToRoom(sid)
  {
    if IndexOfName(users, username) == -1 then []
    else [Emit(ToRoom(sid), UserTyping(username, typing))]
  }

  lemma TypingDelivery(a: Adapter, sender: ConnId, sid: SessionId, users: seq<User>, username: string, typing: bool, c: ConnId)
    ensures Received(a, sender, TypingEvents(sid, users, username, typing), c)
         == if (exists j :: 0 <= j < |users| && users[j].name == username)
               && c in Members(a, sid) && c !in Excepted(a, sender)
            then [UserTyping(username, typing)]
            else []
  {
    if IndexOfName(users, username) != -1 {
      var evs := TypingEvents(sid, users, username, typing);
      ReceivedOne(a, sender, evs[0], c);
    }
  }

  // ----- Message router -----

  /** The message the server builds when the client sends no
      `messageData`: stamped with the clock values and the encoded text. */
  function DefaultMessage(username: string, message: string, stampId: string, stampTime: string,
                          encode: string -> string): (m: Message)
    ensures !m.isPrivate && m.targetUserId == "" && m.encrypted && m.status == Sent
    ensures m.userId == username && m.userName == username && m.content == encode(message)
    ensures m.id == stampId && m.timestamp == stampTime
  {
    Message(stampId, username, username, encode(message), stampTime, true, Sent, false, "")
  }

  /** The message a `sendMessage` stores and routes. */
  function FinalMessage(username: string, message: string, messageData: Option<Message>,
                        stampId: string, stampTime: string, encode: string -> string): (m: Message)
    ensures messageData.Some? ==> m == messageData.value
    ensures messageData.None? ==> !m.isPrivate && m.userName == username && m.content == encode(message)
  {
    if messageData.Some? then messageData.value
    else DefaultMessage(username, message, stampId, stampTime, encode)
  }

  function NotFoundText(target: string): string
  {
    "User " + target + " not found"
  }

  /** A message is private when it says so and names a target. */
  predicate IsPrivate(m: Message)
  {
    m.isPrivate && m.targetUserId != ""
  }

  /** Where a message stored in session `sid` goes. */
  function RouteMessage(sid: SessionId, users: seq<User>, m: Message): (out: seq<Emit<Outbound>>)
    ensures 1 <= |out| <= 2
    ensures forall k :: 0 <= k < |out| ==>
      out[k].event == ReceiveMessage(m) || out[k].event == PrivateMessageError(NotFoundText(m.targetUserId), m)
    ensures IsPrivate(m) ==> out[|out| - 1].target == ToSelf
    ensures IsPrivate(m) ==> forall k :: 0 <= k < |out| ==> !out[k].target.ToAll?
  {
    if IsPrivate(m) then
      var i := IndexOfName(users, m.targetUserId);
      if i != -1 then
        [Emit(ToRoom(users[i].id), ReceiveMessage(m)), Emit(ToSelf, ReceiveMessage(m))]
      else
        [Emit(ToSelf, PrivateMessageError(NotFoundText(m.targetUserId), m))]
    else
      [Emit(ToAll(sid), ReceiveMessage(m))]
  }

  /** A message that is not private reaches every member of the room,
      the sender included, exactly once, and nobody else. */
  lemma RouteBroadcast(a: Adapter, sender: ConnId, sid: SessionId, users: seq<User>, m: Message, c: ConnId)
    requires !IsPrivate(m)
    ensures Received(a, sender, RouteMessage(sid, users, m), c)
         == if c in Members(a, sid) then [ReceiveMessage(m)] else []
  {
    ReceivedOne(a, sender, Emit(ToAll(sid), ReceiveMessage(m)), c);
  }

  /** A private message whose target name some member has goes to the
      first such member's connection and back to the sender, once each. */
  lemma RoutePrivateFound(a: Adapter, sender: ConnId, sid: SessionId, users: seq<User>, m: Message, c: ConnId)
    requires sender in a.live
    requires IsPrivate(m) && IndexOfName(users, m.targetUserId) != -1
    ensures var t := users[IndexOfName(users, m.targetUserId)];
      t.name == m.targetUserId &&
      Received(a, sender, RouteMessage(sid, users, m), c)
        == if c == sender || (c in Members(a, t.id) && c !in Members(a, sender)) then [ReceiveMessage(m)] else []
  {
    var evs := RouteMessage(sid, users, m);
    ReceivedTwo(a, sender, evs[0], evs[1], c);
  }

  /** When the sender and the target connection each own their room,
      exactly the target and the sender receive the private message, once
      each, and nobody else receives anything. */
  lemma RoutePrivateExactlyTwo(a: Adapter, sender: ConnId, sid: SessionId, users: seq<User>, m: Message, c: ConnId)
    requires Addressable(a, sender)
    requires IsPrivate(m) && IndexOfName(users, m.targetUserId) != -1
    requires Addressable(a, users[IndexOfName(users, m.targetUserId)].id)
    ensures var t := users[IndexOfName(users, m.targetUserId)];
      Received(a, sender, RouteMessage(sid, users, m), c)
        == if c == sender || c == t.id then [ReceiveMessage(m)] else []
  {
    RoutePrivateFound(a, sender, sid, users, m, c);
    AddressableMembers(a, users[IndexOfName(users, m.targetUserId)].id);
    AddressableMembers(a, sender);
  }

  /** A private message naming nobody in the session: only the sender
      hears of it, through a `privateMessageError` carrying the message. */
  lemma RoutePrivateMissing(a: Adapter, sender: ConnId, sid: SessionId, users: seq<User>, m: Message, c: ConnId)
    requires sender in a.live
    requires IsPrivate(m) && forall j :: 0 <= j < |users| ==> users[j].name != m.targetUserId
    ensures Received(a, sender, RouteMessage(sid, users, m), c)
         == if c == sender then [PrivateMessageError(NotFoundText(m.targetUserId), m)] else []
  {
    assert IndexOfName(users, m.targetUserId) == -1;
    var e := Emit(ToSelf, PrivateMessageError(NotFoundText(m.targetUserId), m));
    assert RouteMessage(sid, users, m) == [e];
    ReceivedOne(a, sender, e, c);
  }

  // ----- Disconnect across all sessions -----

  predicate Distinct(s: seq<SessionId>)
  {
    forall i, j :: 0 <= i < j < |s| ==> s[i] != s[j]
  }

  lemma DistinctAppend(s: seq<SessionId>, x: SessionId)
    requires Distinct(s) && x !in s
    ensures Distinct(s + [x])
  {
    forall i, j | 0 <= i < j < |s + [x]| ensures (s + [x])[i] != (s + [x])[j] {
      if j == |s| {
        assert (s + [x])[i] == s[i];
      } else {
        assert (s + [x])[i] == s[i] && (s + [x])[j] == s[j];
      }
    }
  }

  /** The notices of a disconnect, session by session in `order` (the
      iteration order of `Object.keys(sessions)`). */
  function LeaveLog(ss: map<SessionId, Session>, order: seq<SessionId>, id: ConnId): (out: seq<Emit<Outbound>>)
    requires forall k :: k in order ==> k in ss
    ensures |out| <= 2 * |order|
  {
    if order == [] then []
    else
      var k := order[|order| - 1];
      LeaveLog(ss, order[..|order| - 1], id) + LeaveEvents(k, ss[k].users, id)
  }

  lemma LeaveLogStep(ss: map<SessionId, Session>, order: seq<SessionId>, k: SessionId, id: ConnId)
    requires forall x :: x in order ==> x in ss
    requires k in ss
    ensures forall x :: x in order + [k] ==> x in ss
    ensures LeaveLog(ss, order + [k], id) == LeaveLog(ss, order, id) + LeaveEvents(k, ss[k].users, id)
  {
    assert (order + [k])[..|order|] == order;
  }

  /** The events of `out` addressed exactly to target `t`. */
  function Addressed(out: seq<Emit<Outbound>>, t: Target): seq<Outbound>
  {
    if out == [] then []
    else Addressed(out[..|out| - 1], t) + (if out[|out| - 1].target == t then [out[|out| - 1].event] else [])
  }

  lemma {:induction false} AddressedAppend(xs: seq<Emit<Outbound>>, ys: seq<Emit<Outbound>>, t: Target)
    ensures Addressed(xs + ys, t) == Addressed(xs, t) + Addressed(ys, t)
    decreases |ys|
  {
    if ys == [] {
      assert xs + ys == xs;
    } else {
      assert (xs + ys)[..|xs + ys| - 1] == xs + ys[..|ys| - 1];
      AddressedAppend(xs, ys[..|ys| - 1], t);
    }
  }

  lemma LeaveEventsAddressed(sid: SessionId, users: seq<User>, id: ConnId, t: Target)
    ensures var i := IndexOfId(users, id);
      Addressed(LeaveEvents(sid, users, id), t)
        == if i != -1 && t == ToRoom(sid) then [UserLeft(users[i])]
           else if i != -1 && t == ToAll(sid) then [UserCountUpdate(|users| - 1)]
           else []
  {
    var evs := LeaveEvents(sid, users, id);
    if evs != [] {
      assert evs[..1] == [evs[0]];
      assert [evs[0]][..0] == [];
      assert Addressed([evs[0]], t) == if evs[0].target == t then [evs[0].event] else [];
      assert Addressed(evs, t) == Addressed([evs[0]], t) + (if evs[1].target == t then [evs[1].event] else []);
    }
  }

  /** The notices of the last session visited follow those of the ones
      before it, whatever the target. */
  lemma LeaveLogAddressed(ss: map<SessionId, Session>, order: seq<SessionId>, id: ConnId, t: Target)
    requires forall x :: x in order ==> x in ss
    requires order != []
    ensures var last := order[|order| - 1];
      Addressed(LeaveLog(ss, order, id), t)
        == Addressed(LeaveLog(ss, order[..|order| - 1], id), t) + Addressed(LeaveEvents(last, ss[last].users, id), t)
  {
    var last := order[|order| - 1];
    AddressedAppend(LeaveLog(ss, order[..|order| - 1], id), LeaveEvents(last, ss[last].users, id), t);
  }

  lemma DistinctPrefix(s: seq<SessionId>)
    requires Distinct(s) && s != []
    ensures Distinct(s[..|s| - 1]) && s[|s| - 1] !in s[..|s| - 1]
    ensures forall x :: x in s <==> x in s[..|s| - 1] || x == s[|s| - 1]
  {
    var pre := s[..|s| - 1];
    assert s == pre + [s[|s| - 1]];
    forall i | 0 <= i < |pre| ensures pre[i] != s[|s| - 1] {
      assert pre[i] == s[i];
    }
  }

  /** The notices of a disconnect addressed to one session's room are
      that session's own notices: no other session's notices name its
      room, and each session is visited once. */
  lemma {:induction false} LeaveLogForRoom(ss: map<SessionId, Session>, order: seq<SessionId>, id: ConnId, k: SessionId, t: Target)
    requires forall x :: x in order ==> x in ss
    requires Distinct(order)
    requires t == ToRoom(k) || t == ToAll(k)
    ensures Addressed(LeaveLog(ss, order, id), t)
         == if k in order then Addressed(LeaveEvents(k, ss[k].users, id), t) else []
  {
    if order != [] {
      var pre := order[..|order| - 1];
      var last := order[|order| - 1];
      DistinctPrefix(order);
      LeaveLogForRoom(ss, pre, id, k, t);
      LeaveLogAddressed(ss, order, id, t);
      if k == last {
        assert Addressed(LeaveLog(ss, pre, id), t) == [];
      } else {
        LeaveEventsAddressed(last, ss[last].users, id, t);
        assert Addressed(LeaveEvents(last, ss[last].users, id), t) == [];
        assert (k in order) == (k in pre);
      }
    }
  }

  /** A disconnect sends each session that held the connection exactly one
      `userLeft`, to the room and so never to the leaver; a session without
      the connection gets none. */
  lemma DisconnectLeftNotice(ss: map<SessionId, Session>, order: seq<SessionId>, id: ConnId, k: SessionId)
    requires forall x :: x in order ==> x in ss
    requires Distinct(order)
    ensures Addressed(LeaveLog(ss, order, id), ToRoom(k))
         == if k in order && HasId(ss[k].users, id) then [UserLeft(ss[k].users[IndexOfId(ss[k].users, id)])] else []
  {
    LeaveLogForRoom(ss, order, id, k, ToRoom(k));
    if k in order {
      LeaveEventsAddressed(k, ss[k].users, id, ToRoom(k));
    }
  }

  /** ... and exactly one `userCountUpdate`, to the whole room, carrying
      the session's new length. */
  lemma DisconnectCountNotice(ss: map<SessionId, Session>, order: seq<SessionId>, id: ConnId, k: SessionId)
    requires forall x :: x in order ==> x in ss
    requires Distinct(order)
    ensures Addressed(LeaveLog(ss, order, id), ToAll(k))
         == if k in order && HasId(ss[k].users, id) then [UserCountUpdate(|ss[k].users| - 1)] else []
  {
    LeaveLogForRoom(ss, order, id, k, ToAll(k));
    if k in order {
      LeaveEventsAddressed(k, ss[k].users, id, ToAll(k));
    }
  }

  /** Nothing goes back to the connection that disconnected. */
  lemma {:induction false} LeaveLogSkipsLeaver(a: Adapter, ss: map<SessionId, Session>, order: seq<SessionId>, id: ConnId)
    requires forall x :: x in order ==> x in ss
    requires forall r :: id !in Members(a, r)
    ensures Received(a, id, LeaveLog(ss, order, id), id) == []
  {
    if order != [] {
      var pre := order[..|order| - 1];
      var last := order[|order| - 1];
      LeaveLogSkipsLeaver(a, ss, pre, id);
      ReceivedAppend(a, id, LeaveLog(ss, pre, id), LeaveEvents(last, ss[last].users, id), id);
      LeaveDelivery(a, last, ss[last].users, id, id);
    }
  }
}
