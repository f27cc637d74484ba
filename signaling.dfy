/** The call-signalling relay and the private-chat relay. The server keeps
    no call state: each handler maps the inbound event and the sender's
    connection id to the events it emits, forwarding the payload unchanged
    and stamping it with the sender's id. */
module Signaling {
  import opened SocketIo
  import opened Protocol

  /** Inbound relay events. The empty string stands for an absent field. */
  datatype Signal =
    | Offer(mode: CallMode, sessionId: string, targetUserId: ConnId, offer: Json, callerName: string)
    | Answer(mode: CallMode, targetUserId: ConnId, answer: Json)
    | Candidate(targetUserId: ConnId, candidate: Json)
    | End(mode: CallMode, targetUserId: ConnId, sessionId: string)
    | Request(mode: CallMode, sessionId: string, targetUserId: ConnId, callerName: string)
    | SendPrivate(senderId: string, receiverId: string, message: Json)
    | TypingPrivate(userId: string, peerId: string, isTyping: bool)

  /** The call events, as opposed to the private-chat ones. */
  predicate IsCall(s: Signal)
  {
    !s.SendPrivate? && !s.TypingPrivate?
  }

  /** JavaScript's default string order, character by character; here the
      characters are Unicode scalar values. */
  predicate LexLess(a: string, b: string)
  {
    if a == [] then b != []
    else b != [] && (a[0] < b[0] || (a[0] == b[0] && LexLess(a[1..], b[1..])))
  }

  lemma {:induction false} LexLessAsymmetric(a: string, b: string)
    ensures !(LexLess(a, b) && LexLess(b, a))
  {
    if a != [] && b != [] && a[0] == b[0] {
      LexLessAsymmetric(a[1..], b[1..]);
    }
  }

  lemma {:induction false} LexLessTotal(a: string, b: string)
    ensures a == b || LexLess(a, b) || LexLess(b, a)
  {
    if a != [] && b != [] && a[0] == b[0] {
      LexLessTotal(a[1..], b[1..]);
      if a[1..] == b[1..] {
        assert a == [a[0]] + a[1..] && b == [b[0]] + b[1..];
      }
    }
  }

  /** `[a, b].sort().join('-')`: the two-element sort swaps only when the
      second id orders strictly before the first. */
  function PrivateRoom(a: string, b: string): (r: string)
    ensures r == a + "-" + b || r == b + "-" + a
    ensures |r| == |a| + |b| + 1
  {
    if LexLess(b, a) then b + "-" + a else a + "-" + b
  }

  /** Both ends of a private chat compute the same room name. */
  lemma PrivateRoomSymmetric(a: string, b: string)
    ensures PrivateRoom(a, b) == PrivateRoom(b, a)
  {
    LexLessAsymmetric(a, b);
    LexLessTotal(a, b);
  }

  /** The room name lists the smaller id first. */
  lemma PrivateRoomOrdered(a: string, b: string)
    ensures PrivateRoom(a, b) == if LexLess(a, b) || a == b then a + "-" + b else b + "-" + a
  {
    LexLessAsymmetric(a, b);
    LexLessTotal(a, b);
  }

  /** The joined name does not tell the pair apart when an id contains the
      separator: two different pairs share one private room. */
  lemma PrivateRoomSharedName()
    ensures PrivateRoom("a-b", "c") == PrivateRoom("a", "b-c") == "a-b-c"
  {
    assert LexLess("a-b", "c");
    assert LexLess("a", "b-c");
  }

  /** The events each relay handler emits for the connection `sender`:
      a call handler at most one, through `socket.to`; the private-chat
      handlers through `socket.to` and, for a message, back to the sender;
      none of them to a whole room. */
  function Relay(sender: ConnId, s: Signal): (out: seq<Emit<Outbound>>)
    ensures IsCall(s) ==> |out| <= 1
    ensures |out| <= 2
    ensures forall k :: 0 <= k < |out| ==> !out[k].target.ToAll?
    ensures forall k :: 0 <= k < |out| && out[k].target.ToSelf? ==> s.SendPrivate?
  {
    match s
    case Offer(mode, sid, t, offer, name) =>
      [Emit(ToRoom(t), CallOffer(mode, offer, sender, name, sid))]
    case Answer(mode, t, answer) =>
      [Emit(ToRoom(t), CallAnswer(mode, answer, sender))]
    case Candidate(t, candidate) =>
      [Emit(ToRoom(t), IceCandidate(candidate, sender))]
    case End(mode, t, sid) =>
      if t != "" then [Emit(ToRoom(t), CallEnd(mode, sender))]
      else if sid != "" then [Emit(ToRoom(sid), CallEnd(mode, sender))]
      else []
    case Request(mode, sid, t, name) =>
      if t != "" then [Emit(ToRoom(t), CallRequest(mode, sender, name, sid))]
      else [Emit(ToRoom(sid), CallRequest(mode, sender, name, sid))]
    case SendPrivate(a, b, m) =>
      [Emit(ToRoom(PrivateRoom(a, b)), PrivateMessage(m)), Emit(ToSelf, PrivateMessage(m))]
    case TypingPrivate(u, t, typing) =>
      [Emit(ToRoom(PrivateRoom(u, t)), UserTyping(u, typing))]
  }

  /** The connection id a call event is stamped with. */
  function Stamp(e: Outbound): Option<ConnId>
  {
    match e
    case CallOffer(_, _, id, _, _) => Some(id)
    case CallAnswer(_, _, id) => Some(id)
    case IceCandidate(_, id) => Some(id)
    case CallEnd(_, id) => Some(id)
    case CallRequest(_, id, _, _) => Some(id)
    case _ => None
  }

  /** The negotiation payload an event carries, if any. */
  function EventPayload(e: Outbound): Option<Json>
  {
    match e
    case CallOffer(_, offer, _, _, _) => Some(offer)
    case CallAnswer(_, answer, _) => Some(answer)
    case IceCandidate(candidate, _) => Some(candidate)
    case _ => None
  }

  function SignalPayload(s: Signal): Option<Json>
  {
    match s
    case Offer(_, _, _, offer, _) => Some(offer)
    case Answer(_, _, answer) => Some(answer)
    case Candidate(_, candidate) => Some(candidate)
    case _ => None
  }

  /** The mode an event keeps from the signal it relays. */
  function EventMode(e: Outbound): Option<CallMode>
  {
    match e
    case CallOffer(mode, _, _, _, _) => Some(mode)
    case CallAnswer(mode, _, _) => Some(mode)
    case CallEnd(mode, _) => Some(mode)
    case CallRequest(mode, _, _, _) => Some(mode)
    case _ => None
  }

  function SignalMode(s: Signal): Option<CallMode>
  {
    match s
    case Offer(mode, _, _, _, _) => Some(mode)
    case Answer(mode, _, _) => Some(mode)
    case End(mode, _, _) => Some(mode)
    case Request(mode, _, _, _) => Some(mode)
    case _ => None
  }

  /** The room a call signal is sent to, or None when it names none:
      offers, answers and candidates go to their target; requests and ends
      fall back to the session's room when no target is given. */
  function Addressee(s: Signal): Option<string>
    requires IsCall(s)
  {
    match s
    case Offer(_, _, t, _, _) => Some(t)
    case Answer(_, t, _) => Some(t)
    case Candidate(t, _) => Some(t)
    case End(_, t, sid) => if t != "" then Some(t) else if sid != "" then Some(sid) else None
    case Request(_, sid, t, _) => Some(if t != "" then t else sid)
  }

  /** Every call handler emits at most one event, to the addressee's room
      without the sender: the event of the same kind, carrying the signal's
      payload, mode, caller name and session id unchanged and stamped with
      the sender's id. */
  lemma RelayForwards(sender: ConnId, s: Signal)
    requires IsCall(s)
    ensures var out := Relay(sender, s);
      && (|out| == 1 <==> Addressee(s).Some?)
      && (|out| == 0 <==> Addressee(s).None?)
      && forall k :: 0 <= k < |out| ==>
           && out[k].target == ToRoom(Addressee(s).value)
           && Stamp(out[k].event) == Some(sender)
           && EventPayload(out[k].event) == SignalPayload(s)
           && EventMode(out[k].event) == SignalMode(s)
           && (s.Offer? ==>
                 out[k].event.CallOffer? && out[k].event.callerName == s.callerName
                 && out[k].event.sessionId == s.sessionId)
           && (s.Answer? ==> out[k].event.CallAnswer?)
           && (s.Candidate? ==> out[k].event.IceCandidate?)
           && (s.End? ==> out[k].event.CallEnd?)
           && (s.Request? ==>
                 out[k].event.CallRequest? && out[k].event.callerName == s.callerName
                 && out[k].event.sessionId == s.sessionId)
  {
  }

  /** Who receives a call signal: every member of the addressee's room but
      those `socket.to` excepts (the sender and its own room), once; nobody
      else, and never the sender. */
  lemma RelayRecipients(a: Adapter, sender: ConnId, s: Signal, c: ConnId)
    requires IsCall(s)
    ensures var out := Relay(sender, s);
      Received(a, sender, out, c)
        == if Addressee(s).Some? && c in Members(a, Addressee(s).value) && c !in Excepted(a, sender)
           then [out[0].event] else []
    ensures Received(a, sender, Relay(sender, s), sender) == []
  {
    var out := Relay(sender, s);
    if out != [] {
      ReceivedOne(a, sender, out[0], c);
      ReceivedOne(a, sender, out[0], sender);
    }
  }

  /** An offer, answer or candidate sent to a live connection that owns its
      room, and is not in the sender's own room, reaches exactly that
      connection. */
  lemma DirectSignalReachesOnlyTarget(a: Adapter, sender: ConnId, s: Signal, c: ConnId)
    requires s.Offer? || s.Answer? || s.Candidate?
    requires Addressable(a, s.targetUserId) && s.targetUserId !in Excepted(a, sender)
    ensures |Received(a, sender, Relay(sender, s), c)| == (if c == s.targetUserId then 1 else 0)
  {
    RelayRecipients(a, sender, s, c);
    AddressableMembers(a, s.targetUserId);
  }

  /** A private message goes to the private room without the sender's own
      room and back to the sender exactly once. */
  lemma PrivateMessageRecipients(a: Adapter, sender: ConnId, x: string, y: string, m: Json, c: ConnId)
    requires sender in a.live
    ensures Received(a, sender, Relay(sender, SendPrivate(x, y, m)), c)
         == if c == sender || (c in Members(a, PrivateRoom(x, y)) && c !in Members(a, sender))
            then [PrivateMessage(m)] else []
  {
    var out := Relay(sender, SendPrivate(x, y, m));
    ReceivedTwo(a, sender, out[0], out[1], c);
  }

  /** A connection that joined the private chat from the other side hears
      both the private messages and the private typing notices. */
  lemma PrivateChatReachesPeer(a: Adapter, sender: ConnId, x: string, y: string, m: Json, typing: bool, c: ConnId)
    requires sender in a.live && c !in Members(a, sender)
    requires c in Members(a, PrivateRoom(y, x))
    ensures Received(a, sender, Relay(sender, SendPrivate(x, y, m)), c) == [PrivateMessage(m)]
    ensures Received(a, sender, Relay(sender, TypingPrivate(x, y, typing)), c) == [UserTyping(x, typing)]
  {
    PrivateRoomSymmetric(x, y);
    PrivateMessageRecipients(a, sender, x, y, m, c);
    ReceivedOne(a, sender, Relay(sender, TypingPrivate(x, y, typing))[0], c);
  }
}
