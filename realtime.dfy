/** The socket.io layer of server/socket/index.js: the handshake's authentication gate, the
    `onlineUsers` map, per-socket room membership, the typing relays, the read and delivered
    receipts and the disconnect cleanup. Every `emit` is appended to an outbox, together with the
    set of sockets it reaches at that moment. */
module Realtime {
  import opened Wrappers
  import opened Models
  import opened Seqs
  import Store

  /** The events the server emits. */
  datatype Event =
    | UserOnline(userId: UserId)
    | UserOffline(userId: UserId, lastSeen: nat)
    | TypingEvent(chatId: ChatId, userName: string)
    | StopTypingEvent(chatId: ChatId)
    | MessagesRead(chatId: ChatId, userId: UserId, messageIds: seq<MessageId>)
    | MessageDelivered(messageId: MessageId, userId: UserId)
    | NewMessage(message: Message)

  /** Who an emit is addressed to. */
  datatype Audience =
    | AllExcept(origin: SocketId)                    // socket.broadcast.emit
    | Room(room: ChatId)                            // io.to(room).emit
    | RoomExcept(room: ChatId, origin: SocketId)    // socket.to(room).emit

  datatype Emission = Emission(audience: Audience, recipients: set<SocketId>, event: Event)

  /** Why the handshake middleware refuses a connection. */
  datatype ConnectError = AuthenticationError | UserNotFound

  /** The handshake middleware. `verify` stands for `jwt.verify`: `None` when it throws, otherwise
      the decoded payload's `id`, which may be absent. A missing or empty token, or one the
      verifier rejects, is an authentication error. A verified token whose id is absent or names no
      stored user is refused as not found, since `findById` then finds nothing. */
  function Authenticate(users: map<UserId, User>, token: Option<string>, verify: string -> Option<Option<UserId>>)
    : (r: Result<UserId, ConnectError>)
    ensures r.Success? <==> token.Some? && token.value != "" && verify(token.value).Some?
                            && verify(token.value).value.Some? && verify(token.value).value.value in users
    ensures r.Success? ==> r.value == verify(token.value).value.value
    ensures r == Failure(UserNotFound) <==> token.Some? && token.value != "" && verify(token.value).Some?
                                            && (verify(token.value).value.None? || verify(token.value).value.value !in users)
  {
    if token.None? || token.value == "" then Failure(AuthenticationError)
    else match verify(token.value)
      case None => Failure(AuthenticationError)
      case Some(None) => Failure(UserNotFound)
      case Some(Some(id)) => if id in users then Success(id) else Failure(UserNotFound)
  }

  /** The `$addToSet: { readBy: { user } }` of `messageRead`, applied to every listed message
      whatever its chat. */
  function MarkReadBy(ms: seq<Message>, ids: seq<MessageId>, u: UserId): (r: seq<Message>)
    ensures Store.SameKeys(ms, r)
    ensures forall i :: 0 <= i < |ms| ==> r[i] == ms[i].(readBy := r[i].readBy)
    ensures forall i :: 0 <= i < |ms| ==> ms[i].id !in ids ==> r[i] == ms[i]
    ensures forall i :: 0 <= i < |ms| ==> ms[i].id in ids ==>
              u in r[i].readBy && (forall v :: v in r[i].readBy <==> v in ms[i].readBy || v == u)
    ensures forall i :: 0 <= i < |ms| ==> u in ms[i].readBy ==> r[i] == ms[i]
  {
    seq(|ms|, i requires 0 <= i < |ms| =>
      if ms[i].id in ids then ms[i].(readBy := AddToSet(ms[i].readBy, u)) else ms[i])
  }

  /** Re-reading adds nothing. */
  lemma MarkReadByIdempotent(ms: seq<Message>, ids: seq<MessageId>, u: UserId)
    ensures MarkReadBy(MarkReadBy(ms, ids, u), ids, u) == MarkReadBy(ms, ids, u)
  {
    var once := MarkReadBy(ms, ids, u);
    var twice := MarkReadBy(once, ids, u);
    assert |twice| == |once|;
    forall i | 0 <= i < |once| ensures twice[i] == once[i] {
      if once[i].id in ids {
        assert u in once[i].readBy;
      }
    }
  }

  /** `messageDelivered`'s update of one message. */
  function MarkDelivered(m: Message, u: UserId): (r: Message)
    ensures r == m.(deliveredTo := r.deliveredTo)
    ensures forall v :: v in r.deliveredTo <==> v in m.deliveredTo || v == u
    ensures u in m.deliveredTo ==> r == m
  {
    m.(deliveredTo := AddToSet(m.deliveredTo, u))
  }

  class SocketServer {
    /** The store the handlers update. */
    const db: Store.Db
    /** The connected sockets and the user each one authenticated as (`socket.user`). */
    var sockets: map<SocketId, UserId>
    /** The rooms each connected socket has joined. */
    var rooms: map<SocketId, set<ChatId>>
    /** The `onlineUsers` map: one socket id per user, the one that connected last. */
    var onlineUsers: map<UserId, SocketId>
    /** Everything emitted so far, oldest first. */
    var outbox: seq<Emission>

    ghost predicate Valid()
      reads this, db
    {
      && db.Valid()
      && rooms.Keys == sockets.Keys
      && (forall s :: s in sockets ==> sockets[s] in db.users)
      && (forall u :: u in onlineUsers ==> onlineUsers[u] in sockets && sockets[onlineUsers[u]] == u)
    }

    /** The stored presence fields agree with `onlineUsers`. */
    ghost predicate PresenceAgrees()
      reads this, db
    {
      forall u :: u in db.users ==>
        && (db.users[u].isOnline <==> u in onlineUsers)
        && db.users[u].socketId == (if u in onlineUsers then Some(onlineUsers[u]) else None)
    }

    /** The sockets in `room`. */
    function Members(room: ChatId): set<SocketId>
      reads this
    {
      set s | s in rooms && room in rooms[s]
    }

    /** The sockets an emit addressed to `a` reaches now. */
    function Recipients(a: Audience): set<SocketId>
      reads this
    {
      match a
      case AllExcept(o) => sockets.Keys - {o}
      case Room(c) => Members(c)
      case RoomExcept(c, o) => Members(c) - {o}
    }

    constructor (store: Store.Db)
      requires store.Valid()
      ensures Valid() && db == store
      ensures sockets == map[] && rooms == map[] && onlineUsers == map[] && outbox == []
    {
      db := store;
      sockets := map[];
      rooms := map[];
      onlineUsers := map[];
      outbox := [];
    }

    method Emit(a: Audience, e: Event)
      modifies this`outbox
      ensures outbox == old(outbox) + [Emission(a, Recipients(a), e)]
    {
      outbox := outbox + [Emission(a, Recipients(a), e)];
    }

    /** The handshake middleware followed by the `connection` handler. A refused connection
        changes nothing. An accepted one is registered with no rooms, overwrites the user's
        `onlineUsers` entry, marks the stored user online with this socket, and broadcasts
        exactly one `userOnline` to every other socket. */
    method Connect(sid: SocketId, token: Option<string>, verify: string -> Option<Option<UserId>>)
      returns (r: Result<UserId, ConnectError>)
      requires Valid() && sid !in sockets
      modifies this, db`users
      ensures Valid()
      ensures r == Authenticate(old(db.users), token, verify)
      ensures r.Failure? ==> unchanged(this) && unchanged(db)
      ensures r.Success? ==>
        var u := r.value;
        && sockets == old(sockets)[sid := u]
        && rooms == old(rooms)[sid := {}]
        && onlineUsers == old(onlineUsers)[u := sid]
        && db.users == old(db.users)[u := old(db.users[u]).(isOnline := true, socketId := Some(sid))]
        && outbox == old(outbox) + [Emission(AllExcept(sid), old(sockets.Keys), UserOnline(u))]
      ensures old(PresenceAgrees()) ==> PresenceAgrees()
    {
      r := Authenticate(db.users, token, verify);
      if r.Failure? {
        return;
      }
      var u := r.value;
      sockets := sockets[sid := u];
      rooms := rooms[sid := {}];
      db.users := db.users[u := db.users[u].(isOnline := true, socketId := Some(sid))];
      onlineUsers := onlineUsers[u := sid];
      assert sockets.Keys - {sid} == old(sockets.Keys);
      Emit(AllExcept(sid), UserOnline(u));
    }

    /** `joinChat`: this socket, and only it, becomes a member of the room. */
    method JoinChat(sid: SocketId, chatId: ChatId)
      requires Valid() && sid in sockets
      modifies this`rooms
      ensures Valid()
      ensures rooms == old(rooms)[sid := old(rooms)[sid] + {chatId}]
    {
      rooms := rooms[sid := rooms[sid] + {chatId}];
    }

    /** `leaveChat`: this socket, and only it, stops being a member of the room. */
    method LeaveChat(sid: SocketId, chatId: ChatId)
      requires Valid() && sid in sockets
      modifies this`rooms
      ensures Valid()
      ensures rooms == old(rooms)[sid := old(rooms)[sid] - {chatId}]
    {
      rooms := rooms[sid := rooms[sid] - {chatId}];
    }

    /** `typing`: relayed to the room's other sockets; no state besides the outbox changes. */
    method Typing(sid: SocketId, chatId: ChatId, userName: string)
      requires Valid() && sid in sockets
      modifies this`outbox
      ensures Valid()
      ensures outbox == old(outbox) + [Emission(RoomExcept(chatId, sid), Members(chatId) - {sid}, TypingEvent(chatId, userName))]
    {
      Emit(RoomExcept(chatId, sid), TypingEvent(chatId, userName));
    }

    /** `stopTyping`: relayed like `typing`. */
    method StopTyping(sid: SocketId, chatId: ChatId)
      requires Valid() && sid in sockets
      modifies this`outbox
      ensures Valid()
      ensures outbox == old(outbox) + [Emission(RoomExcept(chatId, sid), Members(chatId) - {sid}, StopTypingEvent(chatId))]
    {
      Emit(RoomExcept(chatId, sid), StopTypingEvent(chatId));
    }

    /** `messageRead`: the reader is added, set-style, to `readBy` of every listed message
        (`deliveredTo` is left alone); after the update one `messagesRead` goes to the room's
        other sockets. */
    method MessageRead(sid: SocketId, chatId: ChatId, messageIds: seq<MessageId>)
      requires Valid() && sid in sockets
      modifies this`outbox, db`messages
      ensures Valid()
      ensures db.messages == MarkReadBy(old(db.messages), messageIds, sockets[sid])
      ensures outbox == old(outbox) + [Emission(RoomExcept(chatId, sid), Members(chatId) - {sid},
                                                MessagesRead(chatId, sockets[sid], messageIds))]
      ensures PresenceAgrees() == old(PresenceAgrees())
    {
      var u := sockets[sid];
      var updated := MarkReadBy(db.messages, messageIds, u);
      Store.SameKeysPreservesValid(db, updated);
      db.messages := updated;
      Emit(RoomExcept(chatId, sid), MessagesRead(chatId, u, messageIds));
    }

    /** `messageDelivered`: an unknown id changes nothing and emits nothing; otherwise the user is
        added, set-style, to the message's `deliveredTo` and one `messageDelivered` goes to the
        other sockets of the message's chat room. */
    method MessageDeliveredTo(sid: SocketId, messageId: MessageId)
      requires Valid() && sid in sockets
      modifies this`outbox, db`messages
      ensures Valid()
      ensures FirstIndex(old(db.messages), Store.HasId(messageId)).None? ==>
                db.messages == old(db.messages) && outbox == old(outbox)
      ensures FirstIndex(old(db.messages), Store.HasId(messageId)).Some? ==>
                var i := FirstIndex(old(db.messages), Store.HasId(messageId)).value;
                var m := old(db.messages[i]);
                && db.messages == old(db.messages)[i := MarkDelivered(m, sockets[sid])]
                && outbox == old(outbox) + [Emission(RoomExcept(m.chat, sid), Members(m.chat) - {sid},
                                                     MessageDelivered(messageId, sockets[sid]))]
    {
      var found := FirstIndex(db.messages, Store.HasId(messageId));
      if found.Some? {
        var i := found.value;
        var m := db.messages[i];
        var updated := db.messages[i := MarkDelivered(m, sockets[sid])];
        Store.SameKeysPreservesValid(db, updated);
        db.messages := updated;
        Emit(RoomExcept(m.chat, sid), MessageDelivered(messageId, sockets[sid]));
      }
    }

    /** `disconnect`: the socket leaves every room; the user's `onlineUsers` entry is deleted even
        if another socket of theirs is still connected; the stored user goes offline with
        `lastSeen` set and no socket id; one `userOffline` goes to every other socket. */
    method Disconnect(sid: SocketId)
      requires Valid() && sid in sockets
      modifies this, db`users, db`clock
      ensures Valid()
      ensures
        var u := old(sockets[sid]);
        && sockets == old(sockets) - {sid}
        && rooms == old(rooms) - {sid}
        && onlineUsers == old(onlineUsers) - {u}
        && db.users == old(db.users)[u := old(db.users[u]).(isOnline := false, lastSeen := old(db.clock), socketId := None)]
        && db.clock == old(db.clock) + 1
        && outbox == old(outbox) + [Emission(AllExcept(sid), old(sockets.Keys) - {sid}, UserOffline(u, old(db.clock)))]
      ensures old(PresenceAgrees()) ==> PresenceAgrees()
    {
      var u := sockets[sid];
      var now := db.clock;
      db.users := db.users[u := db.users[u].(isOnline := false, lastSeen := now, socketId := None)];
      db.clock := db.clock + 1;
      sockets := sockets - {sid};
      rooms := rooms - {sid};
      onlineUsers := onlineUsers - {u};
      assert sockets.Keys - {sid} == old(sockets.Keys) - {sid};
      Emit(AllExcept(sid), UserOffline(u, now));
    }
  }
}
