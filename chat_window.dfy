/** client/src/component/ChatWindow.jsx: the open conversation. Its socket handlers for typing and
    read events, the selection of messages to report as read, the send guard, the tick shown on
    one's own messages, and the grouping of messages by day. */
module ChatWindow {
  import opened Wrappers
  import opened Models
  import opened Seqs
  import Text
  import Realtime
  import MessageController

  function NotMe(me: UserId): Contact -> bool
  {
    (u: Contact) => u.id != me
  }

  /** `selectedChat?.users?.find(u => u._id !== user._id)`: the first participant other than me. */
  function OtherUser(chat: Option<ChatView>, me: UserId): (r: Option<Contact>)
    ensures chat.None? ==> r.None?
    ensures chat.Some? ==> (r.None? <==> forall u :: u in chat.value.users ==> u.id == me)
    ensures r.Some? ==>
      exists i :: 0 <= i < |chat.value.users| && chat.value.users[i] == r.value
        && r.value.id != me && forall j :: 0 <= j < i ==> chat.value.users[j].id == me
  {
    if chat.None? then None
    else
      var us := chat.value.users;
      match FirstIndex(us, NotMe(me))
      case None => None
      case Some(i) => Some(us[i])
  }

  /** The handlers compare the event's chat with `selectedChat?._id`. */
  predicate IsOpen(open: Option<ChatView>, chatId: ChatId)
  {
    open.Some? && open.value.id == chatId
  }

  /** The `typing` handler on the typing indicator. */
  function OnTyping(open: Option<ChatView>, indicator: Option<string>, chatId: ChatId, userName: string): (r: Option<string>)
    ensures IsOpen(open, chatId) ==> r == Some(userName)
    ensures r != indicator ==> IsOpen(open, chatId)
  {
    if IsOpen(open, chatId) then Some(userName) else indicator
  }

  /** The `stopTyping` handler on the typing indicator. */
  function OnStopTyping(open: Option<ChatView>, indicator: Option<string>, chatId: ChatId): (r: Option<string>)
    ensures IsOpen(open, chatId) ==> r.None?
    ensures r != indicator ==> IsOpen(open, chatId)
  {
    if IsOpen(open, chatId) then None else indicator
  }

  /** For the open chat a `typing` shows the sender's name and a `stopTyping` clears it, whatever
      came before; events for any other chat leave the indicator alone. */
  lemma TypingIndicator(open: Option<ChatView>, indicator: Option<string>, chatId: ChatId, userName: string, later: string)
    ensures IsOpen(open, chatId) ==>
      && OnTyping(open, indicator, chatId, userName) == Some(userName)
      && OnStopTyping(open, OnTyping(open, indicator, chatId, userName), chatId) == None
      && OnTyping(open, OnTyping(open, indicator, chatId, userName), chatId, later) == Some(later)
    ensures !IsOpen(open, chatId) ==>
      OnTyping(open, indicator, chatId, userName) == indicator && OnStopTyping(open, indicator, chatId) == indicator
  {
  }

  /** The `messagesRead` merge: the reader is added to every message's `readBy` that lacks it. */
  function MergeRead(msgs: seq<Message>, userId: UserId): (r: seq<Message>)
    ensures |r| == |msgs|
    ensures forall i :: 0 <= i < |msgs| ==> r[i] == msgs[i].(readBy := r[i].readBy) && userId in r[i].readBy
    ensures forall i :: 0 <= i < |msgs| && userId in msgs[i].readBy ==> r[i] == msgs[i]
    ensures forall i :: 0 <= i < |msgs| && userId !in msgs[i].readBy ==> r[i].readBy == msgs[i].readBy + [userId]
  {
    seq(|msgs|, i requires 0 <= i < |msgs| =>
      if userId in msgs[i].readBy then msgs[i] else msgs[i].(readBy := msgs[i].readBy + [userId]))
  }

  /** The `messagesRead` handler on the message list: only an event for the open chat changes it. */
  function OnMessagesRead(open: Option<ChatView>, msgs: seq<Message>, chatId: ChatId, userId: UserId): (r: seq<Message>)
    ensures |r| == |msgs|
    ensures IsOpen(open, chatId) ==> forall i :: 0 <= i < |msgs| ==> r[i].id == msgs[i].id && userId in r[i].readBy
    ensures !IsOpen(open, chatId) ==> r == msgs
  {
    if IsOpen(open, chatId) then MergeRead(msgs, userId) else msgs
  }

  /** The handler keeps the list's length and order, applies to every message (not only those the
      event lists), and a repeated event changes nothing. */
  lemma MessagesReadSpec(open: Option<ChatView>, msgs: seq<Message>, chatId: ChatId, userId: UserId)
    ensures var r := OnMessagesRead(open, msgs, chatId, userId);
      && |r| == |msgs|
      && (forall i :: 0 <= i < |msgs| ==> r[i].id == msgs[i].id && r[i].createdAt == msgs[i].createdAt)
      && (IsOpen(open, chatId) ==> forall m :: m in r ==> userId in m.readBy)
      && (!IsOpen(open, chatId) ==> r == msgs)
      && OnMessagesRead(open, r, chatId, userId) == r
  {
    var r := OnMessagesRead(open, msgs, chatId, userId);
    if IsOpen(open, chatId) {
      forall m | m in r ensures userId in m.readBy {
        var k :| 0 <= k < |r| && r[k] == m;
      }
      assert MergeRead(r, userId) == r;
    }
  }

  function UnreadBy(me: UserId): Message -> bool
  {
    (m: Message) => IsUnreadFor(m, me)
  }

  function IdsOf(ms: seq<Message>): (r: seq<MessageId>)
    ensures |r| == |ms| && forall i :: 0 <= i < |ms| ==> r[i] == ms[i].id
  {
    seq(|ms|, i requires 0 <= i < |ms| => ms[i].id)
  }

  /** The ids the read effect reports: those of the messages, in list order, that someone else sent
      and I have not read. */
  function UnreadIds(msgs: seq<Message>, me: UserId): (r: seq<MessageId>)
    ensures r == IdsOf(Filter(msgs, UnreadBy(me)))
    ensures forall m :: m in msgs && IsUnreadFor(m, me) ==> m.id in r
    ensures forall id :: id in r ==> exists m :: m in msgs && IsUnreadFor(m, me) && m.id == id
    ensures r == [] <==> forall m :: m in msgs ==> !IsUnreadFor(m, me)
  {
    var kept := Filter(msgs, UnreadBy(me));
    var r := IdsOf(kept);
    assert forall m :: m in kept ==> m.id in r by {
      forall m | m in kept ensures m.id in r {
        var k :| 0 <= k < |kept| && kept[k] == m;
        assert r[k] == m.id;
      }
    }
    assert forall id :: id in r ==> exists m :: m in kept && m.id == id by {
      forall id | id in r ensures exists m :: m in kept && m.id == id {
        var k :| 0 <= k < |r| && r[k] == id;
        assert kept[k] in kept;
      }
    }
    assert kept != [] ==> kept[0] in kept;
    r
  }

  /** The read effect: `emitMessageRead(chatId, unreadIds)`, sent only while a chat is open and only
      when some message is unread. */
  function ReadReceipt(open: Option<ChatView>, msgs: seq<Message>, me: UserId): (r: Option<(ChatId, seq<MessageId>)>)
    ensures r.Some? <==> open.Some? && exists m :: m in msgs && IsUnreadFor(m, me)
    ensures r.Some? ==> r.value == (open.value.id, UnreadIds(msgs, me))
  {
    if open.Some? && |msgs| > 0 then
      var ids := UnreadIds(msgs, me);
      if |ids| > 0 then Some((open.value.id, ids)) else None
    else None
  }

  /** The receipt, applied by the server's `messageRead` handler to the same messages, leaves none
      of them unread for me. */
  lemma ReceiptClearsUnread(msgs: seq<Message>, me: UserId)
    ensures forall m :: m in Realtime.MarkReadBy(msgs, UnreadIds(msgs, me), me) ==> !IsUnreadFor(m, me)
  {
    var r := Realtime.MarkReadBy(msgs, UnreadIds(msgs, me), me);
    forall m | m in r ensures !IsUnreadFor(m, me) {
      var k :| 0 <= k < |r| && r[k] == m;
      assert msgs[k] in msgs;
    }
  }

  /** The send guard: nothing is sent when the text trims to empty, otherwise the trimmed text. */
  function OutgoingText(text: string): (r: Option<string>)
    ensures r.None? <==> forall i :: 0 <= i < |text| ==> Text.IsJsWhitespace(text[i])
    ensures r.Some? ==> r.value == Text.Trim(text) && r.value != []
  {
    Text.TrimSpec(text);
    var t := Text.Trim(text);
    if t == [] then None else Some(t)
  }

  /** The body the send handler posts: the trimmed text as a text message, replying to the
      message being answered. */
  datatype SendRequest = SendRequest(chatId: ChatId, content: string, kind: string, replyTo: Option<MessageId>)

  function SendBody(open: ChatView, text: string, replyTo: Option<Message>): (r: Option<SendRequest>)
    ensures r.None? <==> OutgoingText(text).None?
    ensures r.Some? ==>
      && r.value.chatId == open.id && r.value.content == Text.Trim(text)
      && r.value.kind == "text"
      && r.value.replyTo == (if replyTo.Some? then Some(replyTo.value.id) else None)
  {
    match OutgoingText(text)
    case None => None
    case Some(t) => Some(SendRequest(open.id, t, "text", if replyTo.Some? then Some(replyTo.value.id) else None))
  }

  /** Trimming is idempotent, so the text that is posted would itself pass the guard unchanged. */
  lemma SentTextStable(text: string)
    requires OutgoingText(text).Some?
    ensures OutgoingText(OutgoingText(text).value) == OutgoingText(text)
  {
    Text.TrimIdempotent(text);
  }

  /** The tick on one of my messages. */
  datatype Tick = Sent | Delivered | Read

  /** Read once someone besides the sender has read it, otherwise delivered once someone besides
      the sender has received it, otherwise sent. */
  function Status(m: Message): (r: Tick)
    ensures r == Read <==> |m.readBy| > 1
    ensures r == Delivered <==> |m.readBy| <= 1 && |m.deliveredTo| > 1
    ensures r == Sent <==> |m.readBy| <= 1 && |m.deliveredTo| <= 1
  {
    if |m.readBy| > 1 then Read else if |m.deliveredTo| > 1 then Delivered else Sent
  }

  /** Only my own messages carry a tick. */
  function StatusIcon(m: Message, me: UserId): (r: Option<Tick>)
    ensures r.Some? <==> m.sender == me
    ensures r.Some? ==>
      && (r.value == Read <==> |m.readBy| > 1)
      && (r.value == Delivered <==> |m.readBy| <= 1 && |m.deliveredTo| > 1)
      && (r.value == Sent <==> |m.readBy| <= 1 && |m.deliveredTo| <= 1)
  {
    if m.sender == me then Some(Status(m)) else None
  }

  /** The life of a tick: a message as created shows sent; once another user has it delivered it
      shows delivered; once another user reads it it shows read, and a later delivery does not take
      that back. */
  lemma StatusLifecycle(id: MessageId, chatId: ChatId, me: UserId, other: UserId, content: Option<string>,
                        kind: string, file: Option<Attachment>, replyTo: Option<MessageId>, now: nat)
    requires other != me
    ensures var m := MessageController.NewRecord(id, chatId, me, content, kind, file, replyTo, now);
      && StatusIcon(m, me) == Some(Sent)
      && StatusIcon(Realtime.MarkDelivered(m, other), me) == Some(Delivered)
      && StatusIcon(Realtime.MarkReadBy([m], [id], other)[0], me) == Some(Read)
      && StatusIcon(Realtime.MarkDelivered(Realtime.MarkReadBy([m], [id], other)[0], other), me) == Some(Read)
  {
    var m := MessageController.NewRecord(id, chatId, me, content, kind, file, replyTo, now);
    var d := Realtime.MarkDelivered(m, other);
    assert d.deliveredTo == [me, other];
    var r := Realtime.MarkReadBy([m], [id], other)[0];
    assert r.readBy == [me, other];
    var rd := Realtime.MarkDelivered(r, other);
    assert rd.readBy == r.readBy;
  }

  /** Messages are grouped under the day their `createdAt` falls on, as rendered by `dayOf`. */
  function OnDay(dayOf: nat -> string, day: string): Message -> bool
  {
    (m: Message) => dayOf(m.createdAt) == day
  }

  /** The days of the messages, each once, in order of first occurrence: the key order of the
      grouping object. */
  function DaysOf(msgs: seq<Message>, dayOf: nat -> string): (r: seq<string>)
    ensures NoDup(r)
    ensures forall d :: d in r <==> exists m :: m in msgs && dayOf(m.createdAt) == d
  {
    if msgs == [] then []
    else
      var p := msgs[..|msgs| - 1];
      var last := msgs[|msgs| - 1];
      assert msgs == p + [last];
      var ds := DaysOf(p, dayOf);
      if dayOf(last.createdAt) in ds then ds else ds + [dayOf(last.createdAt)]
  }

  /** The group of one day: its messages in list order. */
  function InDay(msgs: seq<Message>, dayOf: nat -> string, day: string): (r: seq<Message>)
    ensures Subseq(r, msgs)
    ensures forall m :: m in r <==> m in msgs && dayOf(m.createdAt) == day
  {
    Filter(msgs, OnDay(dayOf, day))
  }

  /** A day none of the messages falls on has an empty group. */
  lemma InDayEmpty(msgs: seq<Message>, dayOf: nat -> string, day: string)
    requires day !in DaysOf(msgs, dayOf)
    ensures InDay(msgs, dayOf, day) == []
  {
    FilterNone(msgs, OnDay(dayOf, day));
  }

  lemma InDayAppend(msgs: seq<Message>, dayOf: nat -> string, m: Message, day: string)
    ensures InDay(msgs + [m], dayOf, day) == InDay(msgs, dayOf, day) + (if dayOf(m.createdAt) == day then [m] else [])
  {
    FilterAppend(msgs, m, OnDay(dayOf, day));
  }

  /** The grouping object holds, for the messages `msgs`, one group per day in `days`. */
  ghost predicate Grouped(msgs: seq<Message>, dayOf: nat -> string, days: seq<string>, groups: map<string, seq<Message>>)
  {
    && days == DaysOf(msgs, dayOf)
    && (forall d :: d in groups <==> d in days)
    && (forall d :: d in groups ==> groups[d] == InDay(msgs, dayOf, d))
  }

  /** One iteration of the grouping loop keeps the object in step with the messages seen. */
  lemma GroupedStep(msgs: seq<Message>, m: Message, dayOf: nat -> string, days: seq<string>, groups: map<string, seq<Message>>)
    requires Grouped(msgs, dayOf, days, groups)
    ensures var day := dayOf(m.createdAt);
      Grouped(msgs + [m], dayOf,
              if day in groups then days else days + [day],
              groups[day := (if day in groups then groups[day] else []) + [m]])
  {
    var day := dayOf(m.createdAt);
    var all := msgs + [m];
    assert all[..|all| - 1] == msgs;
    if day !in groups {
      InDayEmpty(msgs, dayOf, day);
    }
    var groups' := groups[day := (if day in groups then groups[day] else []) + [m]];
    forall d | d in groups' ensures groups'[d] == InDay(all, dayOf, d) {
      InDayAppend(msgs, dayOf, m, d);
    }
  }

  /** `groupMessagesByDate`: one pass over the messages, opening a group the first time a day is
      seen and appending each message to its day's group. */
  method GroupByDate(msgs: seq<Message>, dayOf: nat -> string) returns (days: seq<string>, groups: map<string, seq<Message>>)
    ensures days == DaysOf(msgs, dayOf)
    ensures forall d :: d in groups <==> d in days
    ensures forall d :: d in groups ==> groups[d] == InDay(msgs, dayOf, d)
  {
    days := [];
    groups := map[];
    var i := 0;
    while i < |msgs|
      invariant 0 <= i <= |msgs|
      invariant Grouped(msgs[..i], dayOf, days, groups)
    {
      var m := msgs[i];
      assert msgs[..i + 1] == msgs[..i] + [m];
      var day := dayOf(m.createdAt);
      GroupedStep(msgs[..i], m, dayOf, days, groups);
      days, groups := if day in groups then days else days + [day],
                      groups[day := (if day in groups then groups[day] else []) + [m]];
      i := i + 1;
    }
    assert msgs[..i] == msgs;
  }

  /** The total size of the groups of `days`. */
  function GroupSizes(days: seq<string>, msgs: seq<Message>, dayOf: nat -> string): nat
  {
    if days == [] then 0 else |InDay(msgs, dayOf, days[0])| + GroupSizes(days[1..], msgs, dayOf)
  }

  lemma {:induction false} GroupSizesAppendMessage(days: seq<string>, msgs: seq<Message>, dayOf: nat -> string, m: Message)
    requires NoDup(days)
    ensures GroupSizes(days, msgs + [m], dayOf) == GroupSizes(days, msgs, dayOf) + (if dayOf(m.createdAt) in days then 1 else 0)
  {
    if days != [] {
      InDayAppend(msgs, dayOf, m, days[0]);
      assert NoDup(days[1..]);
      GroupSizesAppendMessage(days[1..], msgs, dayOf, m);
      assert dayOf(m.createdAt) in days <==> dayOf(m.createdAt) == days[0] || dayOf(m.createdAt) in days[1..];
      assert dayOf(m.createdAt) == days[0] ==> dayOf(m.createdAt) !in days[1..];
    }
  }

  lemma {:induction false} GroupSizesAppendDay(days: seq<string>, day: string, msgs: seq<Message>, dayOf: nat -> string)
    ensures GroupSizes(days + [day], msgs, dayOf) == GroupSizes(days, msgs, dayOf) + |InDay(msgs, dayOf, day)|
  {
    if days != [] {
      assert (days + [day])[1..] == days[1..] + [day];
      GroupSizesAppendDay(days[1..], day, msgs, dayOf);
    }
  }

  /** Every message lands in exactly one group: the groups' sizes add up to the message count. */
  lemma {:induction false} GroupSizesSum(msgs: seq<Message>, dayOf: nat -> string)
    ensures GroupSizes(DaysOf(msgs, dayOf), msgs, dayOf) == |msgs|
  {
    if msgs != [] {
      var p := msgs[..|msgs| - 1];
      var m := msgs[|msgs| - 1];
      assert msgs == p + [m];
      var ds := DaysOf(p, dayOf);
      var day := dayOf(m.createdAt);
      GroupSizesSum(p, dayOf);
      GroupSizesAppendMessage(ds, p, dayOf, m);
      if day !in ds {
        GroupSizesAppendDay(ds, day, msgs, dayOf);
        InDayAppend(p, dayOf, m, day);
        InDayEmpty(p, dayOf, day);
      }
    }
  }
}
