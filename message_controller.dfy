/** server/controllers/messageController.js: the paginated fetch that also marks the chat read,
    message creation with its `newMessage` emit, delete-for-everyone and hard delete, the star
    toggle, and the upload response. */
module MessageController {
  import opened Wrappers
  import opened Models
  import opened Seqs
  import Text
  import Store
  import Realtime
  import Upload

  /** The content a message deleted for everyone keeps. */
  const DeletedPlaceholder := "This message was deleted"

  /** The messages `getMessages` can return: those of the chat that are not deleted, oldest first. */
  function Visible(ms: seq<Message>, chatId: ChatId): (r: seq<Message>)
    ensures forall m :: m in r <==> m in ms && m.chat == chatId && !m.deleted
  {
    Filter(ms, VisibleIn(chatId))
  }

  function VisibleIn(chatId: ChatId): Message -> bool
  {
    (m: Message) => m.chat == chatId && !m.deleted
  }

  /** The window a paginated query returns out of `v` (oldest first): newest first, skip `skip`,
      keep `limit` (a limit of 0 keeps everything, as a MongoDB cursor does), back to oldest first. */
  function Window<T>(v: seq<T>, skip: nat, limit: nat): (r: seq<T>)
    ensures var avail := if skip <= |v| then |v| - skip else 0;
      |r| == if limit == 0 || avail <= limit then avail else limit
  {
    var newest := Reverse(v);
    var rest := if skip <= |newest| then newest[skip..] else [];
    var taken := if limit == 0 || |rest| <= limit then rest else rest[..limit];
    Reverse(taken)
  }

  /** The window is the contiguous slice that ends `skip` before the newest element and holds at
      most `limit` elements. */
  lemma WindowSlice<T>(v: seq<T>, skip: nat, limit: nat)
    ensures
      var hi := if skip <= |v| then |v| - skip else 0;
      var lo := if limit == 0 || hi <= limit then 0 else hi - limit;
      Window(v, skip, limit) == v[lo..hi]
  {
    if skip <= |v| {
      var hi := |v| - skip;
      var u := v[..hi];
      ReverseDrop(v, skip);
      var n := if limit == 0 || hi <= limit then hi else limit;
      assert Reverse(v)[skip..] == Reverse(u);
      ReverseTakeBack(u, n);
      assert u[hi - n..] == v[hi - n..hi];
    }
  }

  /** The query of `getMessages`: the window of the visible messages that skips
      `(page - 1) * limit` of them. A negative skip is a query error, answered with 500. */
  function Page(ms: seq<Message>, chatId: ChatId, page: int, limit: nat): (r: Result<seq<Message>, HttpError>)
    ensures r.Failure? <==> (page - 1) * limit < 0
    ensures r.Failure? ==> r.error == ServerError
    ensures r.Success? ==>
      var avail := |Visible(ms, chatId)| - (page - 1) * limit;
      |r.value| == if avail <= 0 then 0 else if limit == 0 || avail <= limit then avail else limit
  {
    var skip := (page - 1) * limit;
    if skip < 0 then Failure(ServerError) else Success(Window(Visible(ms, chatId), skip, limit))
  }

  /** A slice of an ordered collection holds only its elements, still in creation order. */
  lemma SliceOfOrdered(v: seq<Message>, lo: nat, hi: nat)
    requires Store.MessagesOrdered(v) && lo <= hi <= |v|
    ensures forall m :: m in v[lo..hi] ==> m in v
    ensures forall i, j :: 0 <= i < j < hi - lo ==> v[lo..hi][i].createdAt < v[lo..hi][j].createdAt
  {
    var r := v[lo..hi];
    forall m | m in r ensures m in v {
      var k :| 0 <= k < |r| && r[k] == m;
      assert m == v[lo + k];
    }
    forall i, j | 0 <= i < j < |r| ensures r[i].createdAt < r[j].createdAt {
      assert r[i] == v[lo + i] && r[j] == v[lo + j];
    }
  }

  /** A window of an ordered collection is an ordered run of at most `limit` of its elements. */
  lemma WindowContents(v: seq<Message>, skip: nat, limit: nat)
    requires Store.MessagesOrdered(v)
    ensures var r := Window(v, skip, limit);
      && (forall m :: m in r ==> m in v)
      && (limit > 0 ==> |r| <= limit)
      && (forall i, j :: 0 <= i < j < |r| ==> r[i].createdAt < r[j].createdAt)
      && (exists lo, hi :: 0 <= lo <= hi <= |v| && r == v[lo..hi])
  {
    var hi := if skip <= |v| then |v| - skip else 0;
    var lo := if limit == 0 || hi <= limit then 0 else hi - limit;
    WindowSlice(v, skip, limit);
    SliceOfOrdered(v, lo, hi);
    assert Window(v, skip, limit) == v[lo..hi];
  }

  /** What a page contains: only visible messages of the chat, at most `limit` of them, oldest
      first, forming a run of consecutive visible messages; the error case arises exactly when the
      skip is negative. */
  lemma PageContents(ms: seq<Message>, chatId: ChatId, page: int, limit: nat)
    requires Store.MessagesOrdered(ms)
    ensures Page(ms, chatId, page, limit).Failure? <==> (page - 1) * limit < 0
    ensures Page(ms, chatId, page, limit).Success? ==>
      var r := Page(ms, chatId, page, limit).value;
      && (forall m :: m in r ==> m in ms && m.chat == chatId && !m.deleted)
      && (limit > 0 ==> |r| <= limit)
      && (forall i, j :: 0 <= i < j < |r| ==> r[i].createdAt < r[j].createdAt)
      && (exists lo, hi :: 0 <= lo <= hi <= |Visible(ms, chatId)| && r == Visible(ms, chatId)[lo..hi])
  {
    var skip := (page - 1) * limit;
    if skip >= 0 {
      Store.FilterMessagesOrdered(ms, VisibleIn(chatId));
      WindowContents(Visible(ms, chatId), skip, limit);
    }
  }

  /** The `updateMany` of `getMessages`: every message of the chat that is unread for `me` gets
      `me` pushed onto `readBy`, deleted messages included; nothing else changes. */
  function MarkChatRead(ms: seq<Message>, chatId: ChatId, me: UserId): (r: seq<Message>)
    ensures Store.SameKeys(ms, r)
    ensures forall i :: 0 <= i < |ms| ==> r[i] == ms[i].(readBy := r[i].readBy)
    ensures forall i :: 0 <= i < |ms| ==> (ms[i].chat != chatId || !IsUnreadFor(ms[i], me)) ==> r[i] == ms[i]
    ensures forall i :: 0 <= i < |ms| ==> ms[i].chat == chatId && IsUnreadFor(ms[i], me) ==>
              r[i].readBy == ms[i].readBy + [me]
  {
    seq(|ms|, i requires 0 <= i < |ms| =>
      if ms[i].chat == chatId && IsUnreadFor(ms[i], me) then ms[i].(readBy := ms[i].readBy + [me]) else ms[i])
  }

  /** After the fetch no message of the whole chat is unread for the requester; a repeated fetch
      changes nothing; and a `readBy` without duplicates stays without duplicates. */
  lemma MarkChatReadSpec(ms: seq<Message>, chatId: ChatId, me: UserId)
    ensures forall m :: m in MarkChatRead(ms, chatId, me) && m.chat == chatId ==> !IsUnreadFor(m, me)
    ensures MarkChatRead(MarkChatRead(ms, chatId, me), chatId, me) == MarkChatRead(ms, chatId, me)
    ensures forall i :: 0 <= i < |ms| && NoDup(ms[i].readBy) ==> NoDup(MarkChatRead(ms, chatId, me)[i].readBy)
  {
    var once := MarkChatRead(ms, chatId, me);
    forall m | m in once && m.chat == chatId ensures !IsUnreadFor(m, me) {
      var k :| 0 <= k < |once| && once[k] == m;
    }
    var twice := MarkChatRead(once, chatId, me);
    forall i | 0 <= i < |once| ensures twice[i] == once[i] {
      if ms[i].chat == chatId && IsUnreadFor(ms[i], me) {
        assert me in once[i].readBy;
      }
    }
    forall i | 0 <= i < |ms| && NoDup(ms[i].readBy) ensures NoDup(once[i].readBy) {
      if ms[i].chat == chatId && IsUnreadFor(ms[i], me) {
        var rb := once[i].readBy;
        assert rb == ms[i].readBy + [me];
        forall a, b | 0 <= a < b < |rb| ensures rb[a] != rb[b] {
          if b == |rb| - 1 {
            assert rb[a] in ms[i].readBy;
          }
        }
      }
    }
  }

  /** `getMessages`: answers with the page as it stood before the update, then marks the chat read
      for the requester. A query error leaves the store as it was. */
  method GetMessages(db: Store.Db, me: UserId, chatId: ChatId, page: int, limit: nat)
    returns (r: Result<seq<Message>, HttpError>)
    requires db.Valid()
    modifies db`messages
    ensures db.Valid()
    ensures r == Page(old(db.messages), chatId, page, limit)
    ensures r.Failure? ==> db.messages == old(db.messages)
    ensures r.Success? ==> db.messages == MarkChatRead(old(db.messages), chatId, me)
  {
    r := Page(db.messages, chatId, page, limit);
    if r.Failure? {
      return;
    }
    var updated := MarkChatRead(db.messages, chatId, me);
    Store.SameKeysPreservesValid(db, updated);
    db.messages := updated;
  }

  /** The record `Message.create` stores: the sender is already in `readBy` and `deliveredTo`. */
  function NewRecord(id: MessageId, chatId: ChatId, sender: UserId, content: Option<string>, kind: string,
                     file: Option<Attachment>, replyTo: Option<MessageId>, now: nat): (m: Message)
    ensures m.id == id && m.chat == chatId && m.sender == sender && m.createdAt == now
    ensures m.readBy == [sender] && m.deliveredTo == [sender]
    ensures !m.deleted && m.starred == []
    ensures !IsUnreadFor(m, sender)
  {
    Message(id, chatId, sender, content, kind, file, replyTo, [sender], [sender], false, [], now)
  }

  /** `Chat.findByIdAndUpdate(chatId, { lastMessage })`: a missing chat is left alone. */
  function SetLastMessage(cs: seq<Chat>, chatId: ChatId, messageId: MessageId, now: nat): (r: seq<Chat>)
    ensures |r| == |cs|
    ensures forall i :: 0 <= i < |cs| ==> r[i].id == cs[i].id
    ensures forall i :: 0 <= i < |cs| && cs[i].id != chatId ==> r[i] == cs[i]
    ensures FirstIndex(cs, Store.IsChat(chatId)).Some? ==>
              var i := FirstIndex(cs, Store.IsChat(chatId)).value;
              r[i] == cs[i].(lastMessage := Some(messageId), updatedAt := now)
    ensures FirstIndex(cs, Store.IsChat(chatId)).None? ==> r == cs
  {
    match FirstIndex(cs, Store.IsChat(chatId))
    case None => cs
    case Some(i) => cs[i := cs[i].(lastMessage := Some(messageId), updatedAt := now)]
  }

  /** `Message.create` followed by the chat's `lastMessage` update: appends the new record with a
      fresh id and the current time, points the chat at it, and advances the clock. */
  method CreateMessage(db: Store.Db, me: UserId, chatId: ChatId, content: Option<string>, kind: string,
                       file: Option<Attachment>, replyTo: Option<MessageId>)
    returns (m: Message)
    requires db.Valid()
    modifies db`messages, db`chats, db`nextId, db`clock
    ensures db.Valid()
    ensures m == NewRecord(old(db.nextId), chatId, me, content, kind, file, replyTo, old(db.clock))
    ensures db.messages == old(db.messages) + [m]
    ensures db.chats == SetLastMessage(old(db.chats), chatId, m.id, old(db.clock))
    ensures db.nextId == old(db.nextId) + 1 && db.clock == old(db.clock) + 1
  {
    m := NewRecord(db.nextId, chatId, me, content, kind, file, replyTo, db.clock);
    var chats := SetLastMessage(db.chats, chatId, m.id, db.clock);
    forall c | c in chats ensures c.id < db.nextId {
      var k :| 0 <= k < |chats| && chats[k] == c;
      assert db.chats[k] in db.chats;
    }
    db.messages := db.messages + [m];
    db.chats := chats;
    db.nextId := db.nextId + 1;
    db.clock := db.clock + 1;
  }

  /** `sendMessage`: a `type` outside the schema's enum fails validation (500) and nothing is
      created. Otherwise exactly one message is appended, the chat's `lastMessage` becomes its id,
      and exactly one `newMessage` carrying it is emitted to every socket in the chat's room, the
      sender's own included. */
  method SendMessage(io: Realtime.SocketServer, me: UserId, chatId: ChatId, content: Option<string>,
                     kind: Option<string>, file: Option<Attachment>, replyTo: Option<MessageId>)
    returns (r: Result<Message, HttpError>)
    requires io.Valid()
    modifies io`outbox, io.db`messages, io.db`chats, io.db`nextId, io.db`clock
    ensures io.Valid()
    ensures var k := if kind.None? then "text" else kind.value;
      && (k !in MessageTypes ==> r == Failure(ServerError) && unchanged(io) && unchanged(io.db))
      && (k in MessageTypes ==>
            && r == Success(NewRecord(old(io.db.nextId), chatId, me, content, k, file, replyTo, old(io.db.clock)))
            && io.db.messages == old(io.db.messages) + [r.value]
            && io.db.chats == SetLastMessage(old(io.db.chats), chatId, r.value.id, old(io.db.clock))
            && io.db.nextId == old(io.db.nextId) + 1
            && io.db.clock == old(io.db.clock) + 1
            && io.outbox == old(io.outbox) + [Realtime.Emission(Realtime.Room(chatId), io.Members(chatId), Realtime.NewMessage(r.value))])
  {
    var k := if kind.None? then "text" else kind.value;
    if k !in MessageTypes {
      return Failure(ServerError);
    }
    var m := CreateMessage(io.db, me, chatId, content, k, file, replyTo);
    io.Emit(Realtime.Room(chatId), Realtime.NewMessage(m));
    r := Success(m);
  }

  /** `deleteMessage`: for everyone (the query string is exactly "true") the record stays, marked
      deleted, with the placeholder content; otherwise the record is removed entirely. */
  method DeleteMessage(db: Store.Db, id: MessageId, forEveryone: string)
    requires db.Valid()
    modifies db`messages
    ensures db.Valid()
    ensures forEveryone == "true" ==>
      match FirstIndex(old(db.messages), Store.HasId(id))
      case None => db.messages == old(db.messages)
      case Some(i) => db.messages == old(db.messages)[i := old(db.messages[i]).(deleted := true, content := Some(DeletedPlaceholder))]
    ensures forEveryone != "true" ==> db.messages == Filter(old(db.messages), Store.NotWithId(id))
  {
    if forEveryone == "true" {
      var found := FirstIndex(db.messages, Store.HasId(id));
      if found.Some? {
        var i := found.value;
        var updated := db.messages[i := db.messages[i].(deleted := true, content := Some(DeletedPlaceholder))];
        Store.SameKeysPreservesValid(db, updated);
        db.messages := updated;
      }
    } else {
      Store.FilterMessagesOrdered(db.messages, Store.NotWithId(id));
      db.messages := Filter(db.messages, Store.NotWithId(id));
    }
  }

  /** A hard delete removes exactly the messages with that id and keeps every other one. */
  lemma HardDeleteSpec(ms: seq<Message>, id: MessageId, m: Message)
    ensures m in Filter(ms, Store.NotWithId(id)) <==> m in ms && m.id != id
    ensures m.id != id ==> multiset(Filter(ms, Store.NotWithId(id)))[m] == multiset(ms)[m]
  {
    FilterMultiset(ms, Store.NotWithId(id), m);
  }

  /** The `starred` update: `$pull` when the user is in it, `$addToSet` otherwise. */
  function ToggleStar(starred: seq<UserId>, me: UserId): (r: seq<UserId>)
    ensures me in r <==> me !in starred
    ensures forall v :: v != me ==> (v in r <==> v in starred)
  {
    if me in starred then Pull(starred, me) else AddToSet(starred, me)
  }

  /** Starring twice restores who has starred the message, and restores the list itself when the
      user had not starred it. */
  lemma ToggleStarTwice(starred: seq<UserId>, me: UserId)
    ensures forall v :: v in ToggleStar(ToggleStar(starred, me), me) <==> v in starred
    ensures me !in starred ==> ToggleStar(ToggleStar(starred, me), me) == starred
  {
    if me !in starred {
      assert ToggleStar(starred, me) == starred + [me];
      PullAppended(starred, me);
    }
  }

  /** The exact list is not restored in general: the star moves to the end. */
  lemma ToggleStarTwiceMoves()
    ensures ToggleStar(ToggleStar([7, 8], 7), 7) == [8, 7]
  {
    assert ToggleStar([7, 8], 7) == [8] by {
      assert [7, 8][1..] == [8];
      assert Filter([8], Other(7)) == [8];
    }
  }

  /** `starMessage`: an unknown id throws (500) and changes nothing; otherwise the requester's
      membership in `starred` flips and the answer is the new membership. */
  method StarMessage(db: Store.Db, me: UserId, id: MessageId) returns (r: Result<bool, HttpError>)
    requires db.Valid()
    modifies db`messages
    ensures db.Valid()
    ensures match FirstIndex(old(db.messages), Store.HasId(id))
      case None => r == Failure(ServerError) && db.messages == old(db.messages)
      case Some(i) =>
        var m := old(db.messages[i]);
        && r == Success(me !in m.starred)
        && db.messages == old(db.messages)[i := m.(starred := ToggleStar(m.starred, me))]
  {
    var found := FirstIndex(db.messages, Store.HasId(id));
    if found.None? {
      return Failure(ServerError);
    }
    var i := found.value;
    var m := db.messages[i];
    var isStarred := me in m.starred;
    var updated := db.messages[i := m.(starred := ToggleStar(m.starred, me))];
    Store.SameKeysPreservesValid(db, updated);
    db.messages := updated;
    r := Success(!isStarred);
  }

  datatype UploadInfo = UploadInfo(url: string, name: string, size: nat)

  /** `uploadFile`, after the upload middleware: 400 without a file; otherwise the public URL of
      the stored file under `/uploads/`, with the original name and size. */
  function UploadFile(file: Option<Upload.StoredFile>, protocol: string, host: string): (r: Result<UploadInfo, HttpError>)
    ensures file.None? <==> r == Failure(BadRequest("No file uploaded"))
    ensures file.Some? ==> r.Success? && r.value.name == file.value.originalName && r.value.size == file.value.size
    ensures file.Some? ==> var u := r.value.url; var f := file.value.filename;
              |u| >= |f| + 9 && u[|u| - |f| - 9..] == "/uploads/" + f
  {
    match file
    case None => Failure(BadRequest("No file uploaded"))
    case Some(f) => Success(UploadInfo(protocol + "://" + host + "/uploads/" + f.filename, f.originalName, f.size))
  }
}
