/** The chat server: the in-memory session registry, the socket handlers
    that change it, and the REST helpers over it. Every handler runs to
    completion before the next one starts, so each method is one atomic
    step; each returns the events the handler emits. */
module Backend {
  import opened SocketIo
  import opened Protocol
  import opened Registry
  import Signaling

  /** The reply of the join-by-id endpoint: `{success: true}`, or the 404
      "Session not found". */
  datatype JoinReply = Joined | SessionNotFound

  /** The sessions while `disconnect` walks them: those in `pending` are
      as they were, the others have lost the connection's entry. */
  function Departed(ss: map<SessionId, Session>, pending: set<SessionId>, id: ConnId): (r: map<SessionId, Session>)
    ensures r.Keys == ss.Keys
  {
    map k | k in ss :: if k in pending then ss[k] else ss[k].(users := DropUser(ss[k].users, id))
  }

  /** Visiting session `k` drops the connection from it and from nothing
      else. */
  lemma DepartedStep(ss: map<SessionId, Session>, pending: set<SessionId>, k: SessionId, id: ConnId,
                     cur: map<SessionId, Session>)
    requires k in pending && k in ss && cur == Departed(ss, pending, id)
    ensures cur[k] == ss[k]
    ensures Departed(ss, pending - {k}, id) == cur[k := cur[k].(users := DropUser(cur[k].users, id))]
  {
  }

  /** The body of the `disconnect` handler's `forEach` over the session
      ids: every session that lists the connection loses that entry and
      emits its departure notices. `order` is the visiting order. */
  method RemoveEverywhere(sessions: map<SessionId, Session>, id: ConnId)
    returns (ss: map<SessionId, Session>, out: seq<Emit<Outbound>>, ghost order: seq<SessionId>)
    ensures ss == Departed(sessions, {}, id)
    ensures Distinct(order) && forall k :: k in order <==> k in sessions
    ensures out == LeaveLog(sessions, order, id)
  {
    var keys := sessions.Keys;
    ss, out, order := sessions, [], [];
    while keys != {}
      invariant keys <= sessions.Keys
      invariant ss == Departed(sessions, keys, id)
      invariant Distinct(order) && forall k :: k in order <==> k in sessions && k !in keys
      invariant out == LeaveLog(sessions, order, id)
      decreases keys
    {
      var k :| k in keys;
      var users := ss[k].users;
      var i := IndexOfId(users, id);
      ghost var before, logged := ss, out;
      if i != -1 {
        var removed := users[i];
        ss := ss[k := ss[k].(users := users[..i] + users[i + 1..])];
        out := out + [Emit(ToRoom(k), UserLeft(removed)), Emit(ToAll(k), UserCountUpdate(|users| - 1))];
      }
      assert ss == Departed(sessions, keys - {k}, id) by {
        DepartedStep(sessions, keys, k, id, before);
        if i == -1 {
          assert before[k := before[k].(users := DropUser(users, id))] == before;
        }
      }
      assert out == LeaveLog(sessions, order + [k], id) by {
        DepartedStep(sessions, keys, k, id, before);
        LeaveLogStep(sessions, order, k, id);
        assert out == logged + LeaveEvents(k, sessions[k].users, id);
      }
      DistinctAppend(order, k);
      order := order + [k];
      keys := keys - {k};
    }
  }

  class Server {
    /** The `sessions` object, keyed by session id. */
    var sessions: map<SessionId, Session>
    /** The `userSessions` object: the names that joined through REST. */
    var userSessions: map<SessionId, seq<string>>
    /** socket.io's room membership. */
    var adapter: Adapter

    ghost predicate Valid()
      reads this
    {
      && Sound(adapter)
      && forall sid :: sid in sessions ==> sessions[sid].id == sid && UniqueIds(sessions[sid].users)
    }

    constructor ()
      ensures Valid()
      ensures sessions == map[] && userSessions == map[] && adapter == Adapter(map[], {})
    {
      sessions := map[];
      userSessions := map[];
      adapter := Adapter(map[], {});
    }

    /** A new socket connection; socket.io never reuses a live id. */
    method Accept(id: ConnId)
      requires Valid() && id !in adapter.live
      modifies this
      ensures Valid()
      ensures adapter == Connect(old(adapter), id)
      ensures sessions == old(sessions) && userSessions == old(userSessions)
    {
      adapter := Connect(adapter, id);
    }

    /** `POST /api/session`. The id comes from the caller (it is drawn from
        a uuid in the source); an existing session of that id is replaced. */
    method CreateSession(sid: SessionId, createdAt: string) returns (r: SessionId)
      requires Valid()
      modifies this
      ensures Valid()
      ensures r == sid
      ensures sessions == old(sessions)[sid := Session(sid, createdAt, [], [])]
      ensures userSessions == old(userSessions) && adapter == old(adapter)
    {
      sessions := sessions[sid := Session(sid, createdAt, [], [])];
      r := sid;
    }

    /** `POST /api/session/join`: records the name against an existing
        session; an unknown session is refused and nothing changes. */
    method JoinById(sid: SessionId, username: string) returns (r: JoinReply)
      requires Valid()
      modifies this
      ensures Valid()
      ensures r == Joined <==> sid in sessions
      ensures r == Joined ==>
        userSessions == old(userSessions)[sid := (if sid in old(userSessions) then old(userSessions)[sid] else []) + [username]]
      ensures r == SessionNotFound ==> userSessions == old(userSessions)
      ensures sessions == old(sessions) && adapter == old(adapter)
    {
      if sid !in sessions {
        return SessionNotFound;
      }
      var names := if sid in userSessions then userSessions[sid] else [];
      userSessions := userSessions[sid := names + [username]];
      r := Joined;
    }

    /** `GET /api/session/:sessionId/users`. */
    method ListUsers(sid: SessionId) returns (r: Option<seq<User>>)
      requires Valid()
      ensures r.Some? <==> sid in sessions
      ensures r.Some? ==> r.value == sessions[sid].users && UniqueIds(r.value)
    {
      if sid !in sessions {
        return None;
      }
      r := Some(sessions[sid].users);
    }

    /** `joinSession`: the connection always joins the session's room; an
        unknown session is created empty; a connection not yet listed is
        appended and announced, a listed one changes nothing. */
    method JoinSession(sender: ConnId, sid: SessionId, username: string, createdAt: string)
      returns (out: seq<Emit<Outbound>>)
      requires Valid() && sender in adapter.live
      modifies this
      ensures Valid()
      ensures adapter == Join(old(adapter), sender, sid)
      ensures userSessions == old(userSessions)
      ensures sid in sessions && sessions == old(sessions)[sid := sessions[sid]]
      ensures var before := if sid in old(sessions) then old(sessions)[sid] else Session(sid, createdAt, [], []);
        && sessions[sid].(users := before.users) == before
        && (HasId(before.users, sender) ==> sessions[sid].users == before.users && out == [])
        && (!HasId(before.users, sender) ==>
              && sessions[sid].users == before.users + [NewUser(sender, username)]
              && out == JoinEvents(sid, sessions[sid].users))
    {
      adapter := Join(adapter, sender, sid);
      if sid !in sessions {
        sessions := sessions[sid := Session(sid, createdAt, [], [])];
      }
      var users := sessions[sid].users;
      if HasId(users, sender) {
        out := [];
      } else {
        var users' := users + [NewUser(sender, username)];
        assert UniqueIds(users') by {
          forall i, j | 0 <= i < j < |users'| ensures users'[i].id != users'[j].id {
            if j == |users| {
              assert users'[i] == users[i];
            }
          }
        }
        sessions := sessions[sid := sessions[sid].(users := users')];
        out := JoinEvents(sid, users');
      }
    }

    /** `sendMessage`: a message to an unknown session is dropped; otherwise
        the client's `messageData`, or one the server builds from the clock
        values and the encoder, is appended to the log and routed. */
    method SendMessage(sender: ConnId, sid: SessionId, username: string, message: string,
                       messageData: Option<Message>, stampId: string, stampTime: string,
                       encode: string -> string)
      returns (out: seq<Emit<Outbound>>)
      requires Valid() && sender in adapter.live
      modifies this
      ensures Valid()
      ensures adapter == old(adapter) && userSessions == old(userSessions)
      ensures sid !in old(sessions) ==> sessions == old(sessions) && out == []
      ensures sid in old(sessions) ==>
        var m := FinalMessage(username, message, messageData, stampId, stampTime, encode);
        && sessions == old(sessions)[sid := old(sessions)[sid].(messages := old(sessions)[sid].messages + [m])]
        && out == RouteMessage(sid, old(sessions)[sid].users, m)
    {
      if sid !in sessions {
        return [];
      }
      var m := FinalMessage(username, message, messageData, stampId, stampTime, encode);
      var s := sessions[sid];
      sessions := sessions[sid := s.(messages := s.messages + [m])];
      out := RouteMessage(sid, s.users, m);
    }

    /** `typingStart` (typing = true) and `typingStop` (typing = false): the
        first member with that display name gets the flag; an unknown
        session or name changes nothing. */
    method SetTyping(sender: ConnId, sid: SessionId, username: string, typing: bool)
      returns (out: seq<Emit<Outbound>>)
      requires Valid() && sender in adapter.live
      modifies this
      ensures Valid()
      ensures adapter == old(adapter) && userSessions == old(userSessions)
      ensures sid !in old(sessions) ==> sessions == old(sessions) && out == []
      ensures sid in old(sessions) ==>
        var users := old(sessions)[sid].users;
        && sessions == old(sessions)[sid := old(sessions)[sid].(users := MarkTyping(users, username, typing))]
        && out == TypingEvents(sid, users, username, typing)
    {
      if sid !in sessions {
        return [];
      }
      var s := sessions[sid];
      var i := IndexOfName(s.users, username);
      if i == -1 {
        return [];
      }
      MarkTypingKeepsIds(s.users, username, typing, sender);
      sessions := sessions[sid := s.(users := s.users[i := s.users[i].(isTyping := typing)])];
      out := [Emit(ToRoom(sid), UserTyping(username, typing))];
    }

    /** `joinPrivateChat`: the connection joins the pair's private room. */
    method JoinPrivateChat(sender: ConnId, userId: string, targetUserId: string)
      requires Valid() && sender in adapter.live
      modifies this
      ensures Valid()
      ensures adapter == Join(old(adapter), sender, Signaling.PrivateRoom(userId, targetUserId))
      ensures sessions == old(sessions) && userSessions == old(userSessions)
    {
      adapter := Join(adapter, sender, Signaling.PrivateRoom(userId, targetUserId));
    }

    /** `disconnect`: the transport has already taken the connection out of
        every room; the handler then removes its entry from every session
        that lists it and notifies each such session. `order` is the order
        in which the sessions were visited. */
    method Disconnect(id: ConnId) returns (out: seq<Emit<Outbound>>, ghost order: seq<SessionId>)
      requires Valid() && id in adapter.live
      modifies this
      ensures Valid()
      ensures adapter == LeaveAll(old(adapter), id)
      ensures userSessions == old(userSessions)
      ensures sessions.Keys == old(sessions).Keys
      ensures forall k :: k in sessions ==>
        sessions[k] == old(sessions)[k].(users := DropUser(old(sessions)[k].users, id))
      ensures forall k :: k in sessions ==> !HasId(sessions[k].users, id)
      ensures Distinct(order) && forall k :: k in order <==> k in old(sessions)
      ensures out == LeaveLog(old(sessions), order, id)
    {
      adapter := LeaveAll(adapter, id);
      ghost var before := sessions;
      var ss;
      ss, out, order := RemoveEverywhere(sessions, id);
      sessions := ss;
      forall k | k in sessions
        ensures UniqueIds(sessions[k].users) && !HasId(sessions[k].users, id)
      {
        DropUserRemovesAll(before[k].users, id);
      }
    }
  }
}
