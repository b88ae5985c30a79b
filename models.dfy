/** The records the server stores (server/models/Message.js, Chat.js, User.js) and the shapes the
    client receives of them after population. */
module Models {
  import opened Wrappers

  /** MongoDB ObjectIds and socket.io connection ids, all modelled as opaque numbers. */
  type UserId = nat
  type ChatId = nat
  type MessageId = nat
  type SocketId = nat

  /** A controller's error response: 400 with its message, or 500 for a thrown error. */
  datatype HttpError = BadRequest(message: string) | ServerError

  /** The values the schema's enum admits for a message's `type`. */
  const MessageTypes: seq<string> := ["text", "image", "file", "audio", "video"]

  datatype Attachment = Attachment(url: string, name: string, size: nat)

  /** A stored message. `readBy` and `deliveredTo` are keyed by user; their timestamps are not
      modelled. `createdAt` comes from the store's clock. */
  datatype Message = Message(
    id: MessageId,
    chat: ChatId,
    sender: UserId,
    content: Option<string>,
    kind: string,
    file: Option<Attachment>,
    replyTo: Option<MessageId>,
    readBy: seq<UserId>,
    deliveredTo: seq<UserId>,
    deleted: bool,
    starred: seq<UserId>,
    createdAt: nat)

  /** The unread condition both the server (`sender != me`, `readBy.user != me`) and the client
      (`sender._id !== user._id && !readBy.some(r => r.user === user._id)`) use. */
  predicate IsUnreadFor(m: Message, me: UserId)
  {
    m.sender != me && me !in m.readBy
  }

  /** A stored chat; `updatedAt` comes from the store's clock. */
  datatype Chat = Chat(
    id: ChatId,
    name: Option<string>,
    isGroup: bool,
    users: seq<UserId>,
    admin: Option<UserId>,
    lastMessage: Option<MessageId>,
    description: Option<string>,
    updatedAt: nat)

  /** The presence part of a stored user. */
  datatype User = User(
    id: UserId,
    name: string,
    isOnline: bool,
    lastSeen: nat,
    socketId: Option<SocketId>)

  /** A populated user as the client sees it in a chat's `users` and in the contact lists. */
  datatype Contact = Contact(id: UserId, name: string, phone: string)

  /** A chat as the client holds it: users and last message populated, `unreadCount` present
      only on chats that came from the chat list. */
  datatype ChatView = ChatView(
    id: ChatId,
    name: Option<string>,
    isGroup: bool,
    users: seq<Contact>,
    lastMessage: Option<Message>,
    updatedAt: int,
    unreadCount: Option<nat>)
}
