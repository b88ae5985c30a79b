/** The document store the controllers and the socket handlers share: the `users`, `chats` and
    `messages` collections, an ObjectId generator and the clock that stamps `createdAt` and
    `updatedAt`. Collections are kept in insertion order, which is also creation-time order. */
module Store {
  import opened Wrappers
  import opened Models
  import opened Seqs

  /** Ids and creation times both increase along the messages collection. */
  predicate MessagesOrdered(ms: seq<Message>)
  {
    forall i, j :: 0 <= i < j < |ms| ==> ms[i].id < ms[j].id && ms[i].createdAt < ms[j].createdAt
  }

  /** Ids increase along the chats collection. */
  predicate ChatsOrdered(cs: seq<Chat>)
  {
    forall i, j :: 0 <= i < j < |cs| ==> cs[i].id < cs[j].id
  }

  /** Deleting by a condition keeps the collection ordered. */
  lemma {:induction false} FilterMessagesOrdered(ms: seq<Message>, keep: Message -> bool)
    requires MessagesOrdered(ms)
    ensures MessagesOrdered(Filter(ms, keep))
  {
    if ms != [] {
      FilterMessagesOrdered(ms[1..], keep);
      var rest := Filter(ms[1..], keep);
      if keep(ms[0]) {
        var r := [ms[0]] + rest;
        forall j | 0 < j < |r| ensures ms[0].id < r[j].id && ms[0].createdAt < r[j].createdAt {
          assert r[j] == rest[j - 1];
          assert rest[j - 1] in ms[1..];
        }
      }
    }
  }

  lemma {:induction false} FilterChatsOrdered(cs: seq<Chat>, keep: Chat -> bool)
    requires ChatsOrdered(cs)
    ensures ChatsOrdered(Filter(cs, keep))
  {
    if cs != [] {
      FilterChatsOrdered(cs[1..], keep);
      var rest := Filter(cs[1..], keep);
      if keep(cs[0]) {
        var r := [cs[0]] + rest;
        forall j | 0 < j < |r| ensures cs[0].id < r[j].id {
          assert r[j] == rest[j - 1];
          assert rest[j - 1] in cs[1..];
        }
      }
    }
  }

  /** Rewriting messages without touching their ids or creation times keeps the order. */
  predicate SameKeys(ms: seq<Message>, ms': seq<Message>)
  {
    |ms| == |ms'| && forall i :: 0 <= i < |ms| ==> ms'[i].id == ms[i].id && ms'[i].createdAt == ms[i].createdAt
  }

  /** Keeps, in order, the messages of chats other than `chatId`. */
  function NotOfChat(chatId: ChatId): Message -> bool
  {
    (m: Message) => m.chat != chatId
  }

  /** Keeps the messages whose id is not `id`. */
  function NotWithId(id: MessageId): Message -> bool
  {
    (m: Message) => m.id != id
  }

  function HasId(id: MessageId): Message -> bool
  {
    (m: Message) => m.id == id
  }

  function IsChat(chatId: ChatId): Chat -> bool
  {
    (c: Chat) => c.id == chatId
  }

  class Db {
    var users: map<UserId, User>
    var chats: seq<Chat>
    var messages: seq<Message>
    var nextId: nat
    var clock: nat

    ghost predicate Valid()
      reads this
    {
      && MessagesOrdered(messages)
      && ChatsOrdered(chats)
      && (forall m :: m in messages ==> m.id < nextId && m.createdAt < clock)
      && (forall c :: c in chats ==> c.id < nextId)
      && (forall u :: u in users ==> users[u].id == u)
    }

    /** A store holding the registered users and no chats or messages. */
    constructor (registered: map<UserId, User>)
      requires forall u :: u in registered ==> registered[u].id == u
      ensures Valid()
      ensures users == registered && chats == [] && messages == []
    {
      users := registered;
      chats := [];
      messages := [];
      nextId := 0;
      clock := 0;
    }
  }

  /** Rewriting messages without touching their ids or creation times keeps the store valid. */
  lemma SameKeysPreservesValid(db: Db, ms: seq<Message>)
    requires db.Valid() && SameKeys(db.messages, ms)
    ensures MessagesOrdered(ms)
    ensures forall x :: x in ms ==> x.id < db.nextId && x.createdAt < db.clock
  {
    forall x | x in ms ensures x.id < db.nextId && x.createdAt < db.clock {
      var k :| 0 <= k < |ms| && ms[k] == x;
      assert db.messages[k] in db.messages;
    }
  }
}
