/** client/src/component/Sidebar.jsx: the chat list's search filter, the last-message preview and
    the tick shown beside it. */
module Sidebar {
  import opened Wrappers
  import opened Models
  import opened Seqs
  import Text
  import ChatWindow

  /** `getOtherUser`: the first participant whose id is not mine. */
  function GetOtherUser(chat: ChatView, me: UserId): (r: Option<Contact>)
    ensures r.None? <==> forall u :: u in chat.users ==> u.id == me
    ensures r.Some? ==> r.value in chat.users && r.value.id != me
  {
    ChatWindow.OtherUser(Some(chat), me)
  }

  /** The name the list shows and searches: a group's own name, otherwise the other participant's. */
  function DisplayName(chat: ChatView, me: UserId): Option<string>
  {
    if chat.isGroup then chat.name
    else match GetOtherUser(chat, me)
      case None => None
      case Some(u) => Some(u.name)
  }

  /** The filter callback: a chat matches when it has a name that contains the search, ignoring
      case; a chat without a name never matches. */
  predicate Matches(chat: ChatView, search: string, me: UserId)
  {
    var name := DisplayName(chat, me);
    name.Some? && Text.ContainsIgnoringCase(name.value, search)
  }

  function MatchesSearch(search: string, me: UserId): ChatView -> bool
  {
    (c: ChatView) => Matches(c, search, me)
  }

  /** Rendering aborted by an exception. */
  datatype RenderError = ReferenceError(binding: string)

  /** `filteredChats` as written: the filter runs while `getOtherUser` is still uninitialised (its
      `const` comes after), so with a non-empty search the first private chat the callback reaches
      throws, and the whole render fails. Group chats are matched on their own name. */
  function FilteredChatsAsWritten(chats: seq<ChatView>, search: string, me: UserId): (r: Result<seq<ChatView>, RenderError>)
    ensures search == [] ==> r == Success(chats)
    ensures search != [] ==> (r.Failure? <==> exists c :: c in chats && !c.isGroup)
  {
    if search == [] then Success(chats)
    else if chats == [] then Success([])
    else if !chats[0].isGroup then Failure(ReferenceError("getOtherUser"))
    else
      match FilteredChatsAsWritten(chats[1..], search, me)
      case Failure(e) => Failure(e)
      case Success(rest) =>
        assert forall c :: c in chats ==> c == chats[0] || c in chats[1..];
        Success(if Matches(chats[0], search, me) then [chats[0]] + rest else rest)
  }

  /** Typing a search while any private chat is listed breaks the chat list. */
  lemma SearchWithPrivateChatFails()
    ensures FilteredChatsAsWritten([ChatView(1, None, false, [Contact(1, "me", "1"), Contact(2, "Ann", "2")], None, 0, None)], "a", 1)
            == Failure(ReferenceError("getOtherUser"))
  {
  }

  /** `filteredChats` as intended, with `getOtherUser` available: an empty search keeps every chat;
      otherwise the chats that match, in their order. */
  function FilteredChats(chats: seq<ChatView>, search: string, me: UserId): (r: seq<ChatView>)
    ensures search == [] ==> r == chats
    ensures forall c :: c in r <==> c in chats && (search == [] || Matches(c, search, me))
    ensures Subseq(r, chats)
  {
    if search == [] then
      assert Subseq(chats, chats) by { SubseqRefl(chats); }
      chats
    else Filter(chats, MatchesSearch(search, me))
  }

  lemma {:induction false} SubseqRefl(s: seq<ChatView>)
    ensures Subseq(s, s)
  {
    if s != [] {
      SubseqRefl(s[1..]);
    }
  }

  /** Where the code as written does not throw, it computes the intended list. */
  lemma AsWrittenAgrees(chats: seq<ChatView>, search: string, me: UserId)
    requires FilteredChatsAsWritten(chats, search, me).Success?
    ensures FilteredChatsAsWritten(chats, search, me).value == FilteredChats(chats, search, me)
  {
    if search != [] {
      AsWrittenAgreesFilter(chats, search, me);
    }
  }

  lemma {:induction false} AsWrittenAgreesFilter(chats: seq<ChatView>, search: string, me: UserId)
    requires search != []
    requires FilteredChatsAsWritten(chats, search, me).Success?
    ensures FilteredChatsAsWritten(chats, search, me).value == Filter(chats, MatchesSearch(search, me))
  {
    if chats != [] {
      AsWrittenAgreesFilter(chats[1..], search, me);
    }
  }

  /** The preview of a deleted last message. */
  const DeletedPreview := "\U{1F6AB} This message was deleted"

  /** `content.substring(0, 30)` followed by "..." when the content is longer than 30. */
  function Clip(s: string): (r: string)
    ensures |s| <= 30 ==> r == s
    ensures |s| > 30 ==> |r| == 33 && r[..30] == s[..30] && r[30..] == "..."
    ensures |r| <= 33 && Text.Prefix(s, 30) <= r
  {
    Text.Prefix(s, 30) + (if |s| > 30 then "..." else "")
  }

  /** What the preview shows of a message: "📎 " and the type for anything but text, otherwise the
      content; missing content renders as "undefined". */
  function Shown(m: Message): (r: string)
    ensures |r| <= 33
    ensures m.kind == "text" && m.content.None? ==> r == "undefined"
    ensures m.kind == "text" && m.content.Some? ==>
      Text.Prefix(m.content.value, 30) <= r && (|m.content.value| <= 30 ==> r == m.content.value)
    ensures m.kind != "text" ==> Text.Prefix("\U{1F4CE} " + m.kind, 30) <= r
  {
    var content := if m.kind != "text" then Some("\U{1F4CE} " + m.kind) else m.content;
    if content.None? then "undefined" else Clip(content.value)
  }

  /** `getLastMessage`. */
  function LastMessagePreview(chat: ChatView, me: UserId): (r: string)
    ensures |r| <= 38
  {
    if chat.lastMessage.None? then "No messages yet"
    else
      var m := chat.lastMessage.value;
      if m.deleted then DeletedPreview
      else (if m.sender == me then "You: " else "") + Shown(m)
  }

  /** The preview's cases: no message, a deleted one, and otherwise "You: " exactly for my own
      messages, followed by at most 33 characters that begin with the first 30 of what is shown. */
  lemma PreviewSpec(chat: ChatView, me: UserId)
    ensures chat.lastMessage.None? ==> LastMessagePreview(chat, me) == "No messages yet"
    ensures chat.lastMessage.Some? && chat.lastMessage.value.deleted ==> LastMessagePreview(chat, me) == DeletedPreview
    ensures chat.lastMessage.Some? && !chat.lastMessage.value.deleted ==>
      var m := chat.lastMessage.value;
      var r := LastMessagePreview(chat, me);
      var prefix := if m.sender == me then "You: " else "";
      && prefix <= r && r[|prefix|..] == Shown(m)
      && |Shown(m)| <= 33
      && (m.kind != "text" ==> Shown(m) == Clip("\U{1F4CE} " + m.kind))
      && (m.kind == "text" && m.content.Some? ==> Text.Prefix(m.content.value, 30) <= Shown(m))
  {
    if chat.lastMessage.Some? && !chat.lastMessage.value.deleted {
      var m := chat.lastMessage.value;
      var prefix := if m.sender == me then "You: " else "";
      assert LastMessagePreview(chat, me) == prefix + Shown(m);
    }
  }

  /** A long text is cut to exactly its first 30 characters and an ellipsis. */
  lemma ClipLong()
    ensures Clip("0123456789012345678901234567890123") == "012345678901234567890123456789..."
  {
  }

  /** The tick beside the preview: only for my own last message, and read exactly when someone
      besides the sender has read it. */
  function SidebarTick(chat: ChatView, me: UserId): (r: Option<ChatWindow.Tick>)
    ensures r.Some? <==> chat.lastMessage.Some? && chat.lastMessage.value.sender == me
    ensures r.Some? ==> (r.value == ChatWindow.Read <==> |chat.lastMessage.value.readBy| > 1)
  {
    if chat.lastMessage.Some? && chat.lastMessage.value.sender == me
    then Some(if |chat.lastMessage.value.readBy| > 1 then ChatWindow.Read else ChatWindow.Sent)
    else None
  }

  /** The list never shows the delivered state: it agrees with the conversation's tick on read, and
      shows a delivered message as merely sent. */
  lemma SidebarTickAgrees(chat: ChatView, me: UserId)
    requires chat.lastMessage.Some? && chat.lastMessage.value.sender == me
    ensures SidebarTick(chat, me) != Some(ChatWindow.Delivered)
    ensures SidebarTick(chat, me) == Some(ChatWindow.Read) <==> ChatWindow.Status(chat.lastMessage.value) == ChatWindow.Read
    ensures ChatWindow.Status(chat.lastMessage.value) == ChatWindow.Delivered ==> SidebarTick(chat, me) == Some(ChatWindow.Sent)
  {
  }
}
