/** client/src/context/ChatContext.jsx: the client's chat list, open chat and message list, and the
    updaters that selecting a chat, receiving a message and counting unread messages apply. */
module ChatContext {
  import opened Wrappers
  import opened Models
  import opened Seqs

  function UpdatedAt(c: ChatView): int
  {
    c.updatedAt
  }

  /** The `map` of `addMessage`: the message's chat takes it as its last message and is stamped
      with `now`; every other chat is kept as it is. */
  function Touch(chats: seq<ChatView>, m: Message, now: int): (r: seq<ChatView>)
    ensures |r| == |chats|
    ensures forall i :: 0 <= i < |chats| ==> r[i].id == chats[i].id
    ensures forall i :: 0 <= i < |chats| && chats[i].id != m.chat ==> r[i] == chats[i]
    ensures forall i :: 0 <= i < |chats| && chats[i].id == m.chat ==>
              r[i] == chats[i].(lastMessage := Some(m), updatedAt := now)
  {
    seq(|chats|, i requires 0 <= i < |chats| =>
      if chats[i].id == m.chat then chats[i].(lastMessage := Some(m), updatedAt := now) else chats[i])
  }

  /** The chat list after `addMessage`: the touched list re-sorted, most recently updated first. */
  function BumpChats(chats: seq<ChatView>, m: Message, now: int): (r: seq<ChatView>)
    ensures |r| == |chats|
    ensures SortedDesc(r, UpdatedAt)
    ensures multiset(r) == multiset(Touch(chats, m, now))
  {
    SortDesc(Touch(chats, m, now), UpdatedAt)
  }

  /** A chat is listed after `addMessage` exactly when it is listed in the touched list. */
  lemma BumpMembers(chats: seq<ChatView>, m: Message, now: int, c: ChatView)
    ensures c in BumpChats(chats, m, now) <==> c in Touch(chats, m, now)
  {
    assert c in BumpChats(chats, m, now) <==> c in multiset(BumpChats(chats, m, now));
    assert c in Touch(chats, m, now) <==> c in multiset(Touch(chats, m, now));
  }

  /** Every chat other than the message's is still listed unchanged; the message's chat carries the
      message and the new time; nothing else is listed. */
  lemma BumpChatsSpec(chats: seq<ChatView>, m: Message, now: int)
    ensures forall c :: c in chats && c.id != m.chat ==> c in BumpChats(chats, m, now)
    ensures forall c :: c in BumpChats(chats, m, now) ==>
      if c.id == m.chat then c.lastMessage == Some(m) && c.updatedAt == now
      else c in chats
  {
    var t := Touch(chats, m, now);
    forall c | c in chats && c.id != m.chat ensures c in BumpChats(chats, m, now) {
      var k :| 0 <= k < |chats| && chats[k] == c;
      assert t[k] == c;
      BumpMembers(chats, m, now, c);
    }
    forall c | c in BumpChats(chats, m, now)
      ensures if c.id == m.chat then c.lastMessage == Some(m) && c.updatedAt == now else c in chats
    {
      BumpMembers(chats, m, now, c);
      var k :| 0 <= k < |t| && t[k] == c;
      assert chats[k] in chats;
    }
  }

  /** When the message's chat is listed and every other chat is older than `now`, the message's
      chat comes first. */
  lemma BumpChatsFirst(chats: seq<ChatView>, m: Message, now: int)
    requires forall c :: c in chats && c.id != m.chat ==> c.updatedAt < now
    requires exists c :: c in chats && c.id == m.chat
    ensures BumpChats(chats, m, now)[0].id == m.chat
  {
    var r := BumpChats(chats, m, now);
    var c :| c in chats && c.id == m.chat;
    var k :| 0 <= k < |chats| && chats[k] == c;
    var t := Touch(chats, m, now);
    BumpMembers(chats, m, now, t[k]);
    var j :| 0 <= j < |r| && r[j] == t[k];
    assert j == 0 || UpdatedAt(r[0]) >= UpdatedAt(r[j]);
    BumpChatsSpec(chats, m, now);
    assert r[0] in r;
  }

  /** An absent `unreadCount` counts as 0. */
  function UnreadOf(c: ChatView): nat
  {
    if c.unreadCount.Some? then c.unreadCount.value else 0
  }

  /** The `map` of `updateChatUnread`. */
  function AdjustUnread(chats: seq<ChatView>, chatId: ChatId, reset: bool): (r: seq<ChatView>)
    ensures |r| == |chats|
    ensures forall i :: 0 <= i < |chats| && chats[i].id != chatId ==> r[i] == chats[i]
    ensures forall i :: 0 <= i < |chats| && chats[i].id == chatId ==>
              r[i] == chats[i].(unreadCount := Some(if reset then 0 else UnreadOf(chats[i]) + 1))
  {
    seq(|chats|, i requires 0 <= i < |chats| =>
      if chats[i].id == chatId
      then chats[i].(unreadCount := Some(if reset then 0 else UnreadOf(chats[i]) + 1))
      else chats[i])
  }

  /** A reset discards every increment before it; after a reset the next message counts as 1;
      and the order of the list, and so its sortedness, is untouched. */
  lemma AdjustUnreadSpec(chats: seq<ChatView>, chatId: ChatId)
    ensures AdjustUnread(AdjustUnread(chats, chatId, false), chatId, true) == AdjustUnread(chats, chatId, true)
    ensures forall i :: 0 <= i < |chats| && chats[i].id == chatId ==>
              UnreadOf(AdjustUnread(AdjustUnread(chats, chatId, true), chatId, false)[i]) == 1
    ensures SortedDesc(chats, UpdatedAt) ==> SortedDesc(AdjustUnread(chats, chatId, true), UpdatedAt)
    ensures SortedDesc(chats, UpdatedAt) ==> SortedDesc(AdjustUnread(chats, chatId, false), UpdatedAt)
  {
    var a := AdjustUnread(chats, chatId, false);
    assert forall i :: 0 <= i < |chats| ==> a[i].updatedAt == chats[i].updatedAt;
    var b := AdjustUnread(chats, chatId, true);
    assert forall i :: 0 <= i < |chats| ==> b[i].updatedAt == chats[i].updatedAt;
  }

  /** The provider's state cells. */
  class ChatProvider {
    var chats: seq<ChatView>
    var selectedChat: Option<ChatView>
    var messages: seq<Message>

    constructor ()
      ensures chats == [] && selectedChat == None && messages == []
    {
      chats := [];
      selectedChat := None;
      messages := [];
    }

    /** `fetchChats` settling: the answer replaces the list; a failed request keeps it. */
    method ChatsFetched(data: Option<seq<ChatView>>)
      modifies this`chats
      ensures chats == if data.Some? then data.value else old(chats)
    {
      if data.Some? {
        chats := data.value;
      }
    }

    /** `selectChat`: the chat becomes the open one; clearing the selection empties the message
        list, choosing a chat starts a fetch whose answer arrives as `MessagesFetched`. */
    method SelectChat(chat: Option<ChatView>)
      modifies this`selectedChat, this`messages
      ensures selectedChat == chat
      ensures messages == if chat.None? then [] else old(messages)
    {
      selectedChat := chat;
      if chat.None? {
        messages := [];
      }
    }

    /** `fetchMessages` settling: the answer replaces the list; a failed request keeps it. */
    method MessagesFetched(data: Option<seq<Message>>)
      modifies this`messages
      ensures messages == if data.Some? then data.value else old(messages)
    {
      if data.Some? {
        messages := data.value;
      }
    }

    /** `addMessage`: the message is appended after the existing ones, and the chat list is
        touched and re-sorted, stamped with the client's clock reading `now`. */
    method AddMessage(m: Message, now: int)
      modifies this`messages, this`chats
      ensures messages == old(messages) + [m]
      ensures chats == BumpChats(old(chats), m, now)
      ensures |chats| == |old(chats)| && SortedDesc(chats, UpdatedAt)
    {
      messages := messages + [m];
      chats := BumpChats(chats, m, now);
    }

    /** `updateChatUnread`: resets or increments one chat's counter, keeping the list order. */
    method UpdateChatUnread(chatId: ChatId, reset: bool)
      modifies this`chats
      ensures chats == AdjustUnread(old(chats), chatId, reset)
      ensures SortedDesc(old(chats), UpdatedAt) ==> SortedDesc(chats, UpdatedAt)
    {
      AdjustUnreadSpec(chats, chatId);
      chats := AdjustUnread(chats, chatId, reset);
    }
  }
}
