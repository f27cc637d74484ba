/** The values the chat server stores and the events it sends. */
module Protocol {
  import opened SocketIo

  type SessionId = string

  datatype Option<T> = None | Some(value: T)

  /** An opaque client payload relayed without inspection (an SDP offer or
      answer, an ICE candidate, a private chat message). */
  type Json = string

  datatype Status = Online | Away | Offline

  /** A session member. `name` is the display name, which need not be
      unique within a session. */
  datatype User = User(id: ConnId, name: string, status: Status, isTyping: bool)

  datatype DeliveryStatus = Sending | Sent | Delivered | Read

  /** A chat message. `targetUserId` holds the display name of the private
      recipient; the empty string stands for an absent field. */
  datatype Message = Message(
    id: string,
    userId: string,
    userName: string,
    content: string,
    timestamp: string,
    encrypted: bool,
    status: DeliveryStatus,
    isPrivate: bool,
    targetUserId: string)

  /** A session: its members in join order and its append-only log. */
  datatype Session = Session(id: SessionId, createdAt: string, messages: seq<Message>, users: seq<User>)

  datatype CallMode = Video | Audio

  /** Events the server sends to clients. The call events carry their mode,
      which selects between the `videoCall…` and `audioCall…` event names. */
  datatype Outbound =
    | UserJoined(user: User)
    | UserLeft(user: User)
    | UserCountUpdate(count: nat)
    | UsersList(users: seq<User>)
    | ReceiveMessage(message: Message)
    | PrivateMessageError(text: string, originalMessage: Message)
    | UserTyping(username: string, isTyping: bool)
    | CallOffer(mode: CallMode, offer: Json, callerId: ConnId, callerName: string, sessionId: string)
    | CallAnswer(mode: CallMode, answer: Json, answererId: ConnId)
    | IceCandidate(candidate: Json, senderId: ConnId)
    | CallEnd(mode: CallMode, callerId: ConnId)
    | CallRequest(mode: CallMode, callerId: ConnId, callerName: string, sessionId: string)
    | PrivateMessage(payload: Json)
}
