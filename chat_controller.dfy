/** server/controllers/chatController.js: opening a private chat, the chat list with unread
    counts, group creation and membership changes, and chat deletion with its messages. */
module ChatController {
  import opened Wrappers
  import opened Models
  import opened Seqs
  import Store
  import MessageController

  /** The `findOne` condition of `accessChat`: a private chat whose members include both users. */
  function PrivateWith(me: UserId, other: UserId): Chat -> bool
  {
    (c: Chat) => !c.isGroup && me in c.users && other in c.users
  }

  /** The private chat `accessChat` finds, the first in collection order. */
  function FindPrivate(cs: seq<Chat>, me: UserId, other: UserId): (r: Option<nat>)
    ensures r.Some? ==> r.value < |cs| && !cs[r.value].isGroup && me in cs[r.value].users && other in cs[r.value].users
    ensures r.None? <==> forall c :: c in cs ==> c.isGroup || me !in c.users || other !in c.users
  {
    var r := FirstIndex(cs, PrivateWith(me, other));
    assert r.None? ==> forall c :: c in cs ==> !PrivateWith(me, other)(c);
    r
  }

  /** The chat `accessChat` creates when none exists. */
  function NewPrivate(id: ChatId, me: UserId, other: UserId, now: nat): (r: Chat)
    ensures r.id == id && r.users == [me, other] && r.updatedAt == now
    ensures r.name.None? && r.admin.None? && r.lastMessage.None?
    ensures PrivateWith(me, other)(r) && PrivateWith(other, me)(r)
  {
    Chat(id, None, false, [me, other], None, None, None, now)
  }

  /** A chat created because none was found is the one found from then on, for either user. */
  lemma FindAfterCreate(cs: seq<Chat>, id: ChatId, me: UserId, other: UserId, now: nat)
    requires FindPrivate(cs, me, other).None?
    ensures FindPrivate(cs + [NewPrivate(id, me, other, now)], me, other) == Some(|cs|)
    ensures FindPrivate(cs + [NewPrivate(id, me, other, now)], other, me) == Some(|cs|)
  {
    var cs' := cs + [NewPrivate(id, me, other, now)];
    assert forall k :: 0 <= k < |cs| ==> cs'[k] == cs[k] && cs[k] in cs;
  }

  /** `accessChat`: answers with the first private chat of the two users (200), or creates one
      holding exactly the two of them and answers with it (201). */
  method AccessChat(db: Store.Db, me: UserId, other: UserId) returns (chat: Chat, created: bool)
    requires db.Valid()
    modifies db`chats, db`nextId, db`clock
    ensures db.Valid()
    ensures match FindPrivate(old(db.chats), me, other)
      case Some(i) => chat == old(db.chats[i]) && !created && unchanged(db)
      case None =>
        && created
        && chat == NewPrivate(old(db.nextId), me, other, old(db.clock))
        && db.chats == old(db.chats) + [chat]
        && db.nextId == old(db.nextId) + 1 && db.clock == old(db.clock) + 1
  {
    var found := FindPrivate(db.chats, me, other);
    if found.Some? {
      return db.chats[found.value], false;
    }
    chat := NewPrivate(db.nextId, me, other, db.clock);
    db.chats := db.chats + [chat];
    db.nextId := db.nextId + 1;
    db.clock := db.clock + 1;
    created := true;
  }

  /** The `countDocuments` condition of `getChats`. */
  function UnreadIn(chatId: ChatId, me: UserId): Message -> bool
  {
    (m: Message) => m.chat == chatId && IsUnreadFor(m, me)
  }

  /** The unread count of a chat: its messages, deleted ones included, that someone else sent and
      `me` has not read. */
  function UnreadCount(ms: seq<Message>, chatId: ChatId, me: UserId): (n: nat)
    ensures n <= |ms|
    ensures n == 0 <==> forall m :: m in ms && m.chat == chatId ==> !IsUnreadFor(m, me)
  {
    var r := Filter(ms, UnreadIn(chatId, me));
    assert r != [] ==> r[0] in r;
    |r|
  }

  /** Fetching a chat's messages clears its unread count and leaves every other chat's count as it
      was. */
  lemma FetchClearsUnread(ms: seq<Message>, chatId: ChatId, me: UserId, other: ChatId)
    ensures UnreadCount(MessageController.MarkChatRead(ms, chatId, me), chatId, me) == 0
    ensures other != chatId ==>
      UnreadCount(MessageController.MarkChatRead(ms, chatId, me), other, me) == UnreadCount(ms, other, me)
  {
    MessageController.MarkChatReadSpec(ms, chatId, me);
    if other != chatId {
      FilterPointwise(MessageController.MarkChatRead(ms, chatId, me), ms, UnreadIn(other, me));
    }
  }

  /** One entry of the `getChats` answer. */
  datatype ChatEntry = ChatEntry(chat: Chat, unreadCount: nat)

  function HasMember(me: UserId): Chat -> bool
  {
    (c: Chat) => me in c.users
  }

  function UpdatedAt(c: Chat): int
  {
    c.updatedAt
  }

  /** The chats an answer lists, in its order. */
  function ChatsOf(r: seq<ChatEntry>): (cs: seq<Chat>)
    ensures |cs| == |r| && forall i :: 0 <= i < |r| ==> cs[i] == r[i].chat
  {
    seq(|r|, i requires 0 <= i < |r| => r[i].chat)
  }

  function WithUnread(cs: seq<Chat>, ms: seq<Message>, me: UserId): (r: seq<ChatEntry>)
    ensures ChatsOf(r) == cs
    ensures forall i :: 0 <= i < |r| ==> r[i].unreadCount == UnreadCount(ms, r[i].chat.id, me)
  {
    seq(|cs|, i requires 0 <= i < |cs| => ChatEntry(cs[i], UnreadCount(ms, cs[i].id, me)))
  }

  /** `getChats`: the chats `me` belongs to, each exactly as often as it is stored, most recently
      updated first, each with its unread count. */
  function ChatList(cs: seq<Chat>, ms: seq<Message>, me: UserId): (r: seq<ChatEntry>)
    ensures multiset(ChatsOf(r)) == multiset(Filter(cs, HasMember(me)))
    ensures forall i :: 0 <= i < |r| ==> r[i].unreadCount == UnreadCount(ms, r[i].chat.id, me)
    ensures forall i, j :: 0 <= i < j < |r| ==> r[i].chat.updatedAt >= r[j].chat.updatedAt
  {
    var sorted := SortDesc(Filter(cs, HasMember(me)), UpdatedAt);
    var r := WithUnread(sorted, ms, me);
    assert forall i, j :: 0 <= i < j < |r| ==> UpdatedAt(sorted[i]) >= UpdatedAt(sorted[j]);
    r
  }

  /** A chat is listed exactly when `me` is among its members. */
  lemma ChatListMembers(cs: seq<Chat>, ms: seq<Message>, me: UserId, c: Chat)
    ensures c in ChatsOf(ChatList(cs, ms, me)) <==> c in cs && me in c.users
  {
    var listed := ChatsOf(ChatList(cs, ms, me));
    assert c in listed <==> c in multiset(listed);
    assert c in Filter(cs, HasMember(me)) <==> c in multiset(Filter(cs, HasMember(me)));
  }

  /** `createGroup`: a missing `users` throws (500); fewer than two users is refused (400); both
      leave the store as it was. Otherwise a group is created with the creator first, then the
      given users unchanged, and the creator as admin. */
  method CreateGroup(db: Store.Db, me: UserId, name: Option<string>, users: Option<seq<UserId>>,
                     description: Option<string>)
    returns (r: Result<Chat, HttpError>)
    requires db.Valid()
    modifies db`chats, db`nextId, db`clock
    ensures db.Valid()
    ensures users.None? ==> r == Failure(ServerError) && unchanged(db)
    ensures users.Some? && |users.value| < 2 ==> r == Failure(BadRequest("At least 2 users required")) && unchanged(db)
    ensures users.Some? && |users.value| >= 2 ==>
      && r == Success(Chat(old(db.nextId), name, true, [me] + users.value, Some(me), None, description, old(db.clock)))
      && db.chats == old(db.chats) + [r.value]
      && db.nextId == old(db.nextId) + 1 && db.clock == old(db.clock) + 1
  {
    if users.None? {
      return Failure(ServerError);
    }
    if |users.value| < 2 {
      return Failure(BadRequest("At least 2 users required"));
    }
    var chat := Chat(db.nextId, name, true, [me] + users.value, Some(me), None, description, db.clock);
    db.chats := db.chats + [chat];
    db.nextId := db.nextId + 1;
    db.clock := db.clock + 1;
    r := Success(chat);
  }

  /** A `findByIdAndUpdate` of a chat's member list with `{ new: true }`: the updated chat, stamped
      with the current time, or nothing when no chat has that id. */
  method UpdateMembers(db: Store.Db, chatId: ChatId, users: seq<UserId> -> seq<UserId>) returns (r: Option<Chat>)
    requires db.Valid()
    modifies db`chats, db`clock
    ensures db.Valid()
    ensures match FirstIndex(old(db.chats), Store.IsChat(chatId))
      case None => r.None? && unchanged(db)
      case Some(i) =>
        var c := old(db.chats[i]).(users := users(old(db.chats[i]).users), updatedAt := old(db.clock));
        && r == Some(c)
        && db.chats == old(db.chats)[i := c]
        && db.clock == old(db.clock) + 1
  {
    var found := FirstIndex(db.chats, Store.IsChat(chatId));
    if found.None? {
      return None;
    }
    var i := found.value;
    var c := db.chats[i].(users := users(db.chats[i].users), updatedAt := db.clock);
    var chats := db.chats[i := c];
    forall x | x in chats ensures x.id < db.nextId {
      var k :| 0 <= k < |chats| && chats[k] == x;
      assert db.chats[k] in db.chats;
    }
    db.chats := chats;
    db.clock := db.clock + 1;
    r := Some(c);
  }

  /** `addToGroup`: `$addToSet` of the user on the chat's members. There is no check that the
      chat is a group or that the requester is its admin. */
  method AddToGroup(db: Store.Db, chatId: ChatId, userId: UserId) returns (r: Option<Chat>)
    requires db.Valid()
    modifies db`chats, db`clock
    ensures db.Valid()
    ensures match FirstIndex(old(db.chats), Store.IsChat(chatId))
      case None => r.None? && unchanged(db)
      case Some(i) =>
        && r.Some? && r.value.id == chatId
        && r.value == old(db.chats[i]).(users := AddToSet(old(db.chats[i]).users, userId), updatedAt := old(db.clock))
        && db.chats == old(db.chats)[i := r.value]
  {
    r := UpdateMembers(db, chatId, (us: seq<UserId>) => AddToSet(us, userId));
  }

  /** `removeFromGroup`: `$pull` of the user from the chat's members, every occurrence of it. */
  method RemoveFromGroup(db: Store.Db, chatId: ChatId, userId: UserId) returns (r: Option<Chat>)
    requires db.Valid()
    modifies db`chats, db`clock
    ensures db.Valid()
    ensures match FirstIndex(old(db.chats), Store.IsChat(chatId))
      case None => r.None? && unchanged(db)
      case Some(i) =>
        && r.Some? && r.value.id == chatId
        && r.value == old(db.chats[i]).(users := Pull(old(db.chats[i]).users, userId), updatedAt := old(db.clock))
        && db.chats == old(db.chats)[i := r.value]
  {
    r := UpdateMembers(db, chatId, (us: seq<UserId>) => Pull(us, userId));
  }

  /** Adding a member and then removing them leaves the other members where they were, and
      removing then re-adding ends with the user a member. */
  lemma MembershipChanges(us: seq<UserId>, u: UserId)
    ensures u !in us ==> Pull(AddToSet(us, u), u) == us
    ensures u in AddToSet(Pull(us, u), u) && u !in Pull(AddToSet(us, u), u)
    ensures forall v :: v != u ==> (v in Pull(AddToSet(us, u), u) <==> v in us)
  {
    if u !in us {
      PullAppended(us, u);
    }
  }

  function NotChat(chatId: ChatId): Chat -> bool
  {
    (c: Chat) => c.id != chatId
  }

  /** `deleteChat`: every message of the chat, then the chat itself, are removed; everything else
      stays, in order. */
  method DeleteChat(db: Store.Db, chatId: ChatId)
    requires db.Valid()
    modifies db`messages, db`chats
    ensures db.Valid()
    ensures db.messages == Filter(old(db.messages), Store.NotOfChat(chatId))
    ensures db.chats == Filter(old(db.chats), NotChat(chatId))
  {
    Store.FilterMessagesOrdered(db.messages, Store.NotOfChat(chatId));
    Store.FilterChatsOrdered(db.chats, NotChat(chatId));
    db.messages := Filter(db.messages, Store.NotOfChat(chatId));
    db.chats := Filter(db.chats, NotChat(chatId));
  }

  /** After a chat is deleted nothing refers to it, it appears in nobody's chat list, and every
      other chat keeps all its messages. */
  lemma DeleteChatSpec(ms: seq<Message>, cs: seq<Chat>, chatId: ChatId, me: UserId, m: Message)
    ensures forall x :: x in Filter(ms, Store.NotOfChat(chatId)) ==> x.chat != chatId
    ensures forall e :: e in ChatList(Filter(cs, NotChat(chatId)), Filter(ms, Store.NotOfChat(chatId)), me) ==> e.chat.id != chatId
    ensures m.chat != chatId ==> multiset(Filter(ms, Store.NotOfChat(chatId)))[m] == multiset(ms)[m]
  {
    FilterMultiset(ms, Store.NotOfChat(chatId), m);
    var r := ChatList(Filter(cs, NotChat(chatId)), Filter(ms, Store.NotOfChat(chatId)), me);
    forall e | e in r ensures e.chat.id != chatId {
      var i :| 0 <= i < |r| && r[i] == e;
      assert ChatsOf(r)[i] == e.chat;
      ChatListMembers(Filter(cs, NotChat(chatId)), Filter(ms, Store.NotOfChat(chatId)), me, e.chat);
    }
  }
}
