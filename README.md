# A verified model of the chat core of a WhatsApp-style messenger

The project models the stateful logic beneath the messenger's Express, MongoDB and socket.io wiring,
and beneath its React screens, in Dafny.

The server side is one in-memory store (`Store.Db`) with four parts:
- the `users` map;
- the `chats` and `messages` collections, in insertion order;
- an id generator;
- a logical clock that stamps `createdAt`, `updatedAt` and `lastSeen`.

Three parts work on that store:
- The socket layer (`Realtime.SocketServer`) keeps three things:
  - the connected sockets with the user each authenticated as;
  - each socket's rooms;
  - the `onlineUsers` map.

  Every emit lands in an outbox, stored with the set of sockets it reaches at that moment.
- The message controller (`MessageController`) covers:
  - the paginated fetch, which also marks the whole chat read;
  - message creation, with its `newMessage` emit;
  - delete for everyone (a tombstone) and the hard delete;
  - the star toggle;
  - the upload response.
- The chat controller (`ChatController`) covers:
  - find-or-create of a private chat;
  - the chat list with unread counts;
  - group creation;
  - member add and remove;
  - the cascade delete.

The client side keeps the chat provider's state cells in a class (`ChatContext.ChatProvider`). Its updaters, and the components' handlers and derived values, are pure functions:
- the read-receipt merge, the unread-id selection, the send guard, the tick rule and the grouping by day (`ChatWindow`);
- the search filter, the last-message preview and the list tick (`Sidebar`);
- the contact filters, the selection toggle, the group request and the chat-list dedupe (`NewGroupModal`, `NewChatModal`).

The multer configuration (`Upload`) covers the extension filter, the size limit and the stored file name.

About the functions of the model:
- String functions follow the JavaScript built-ins the code calls, in `Text`: `trim`, `toLowerCase` (ASCII letters), `includes`, `substring`, and decimal rendering.
- Node's `path.extname` is modelled in `Upload` for POSIX separators.
- Sequence helpers are in `Seqs`:
  - `Filter`;
  - `AddToSet` and `Pull`, the semantics of MongoDB's `$addToSet` and `$pull`;
  - a stable descending sort, `SortDesc`.

Inputs the code takes from the environment become parameters:
- the JWT verifier is a function `verify`;
- the client's `new Date()` is `now`;
- `Date.now()` and `Math.random()` in the upload file name are numbers;
- date formatting into a day key is a function `dayOf`;
- the request's protocol and host are strings.

The server's own clock is the store's `clock` field. Only the requests that stamp a time read it and then advance it: message creation, chat and group creation, a member change, and a disconnect. A fetch, a delete, a star toggle, a connect and the receipt handlers leave it alone.

## Model

| member | source | states |
|---|---|---|
| Realtime.Authenticate | server/socket/index.js:7-20 | a connection is let through exactly when a non-empty token is present, it verifies, and its id names a stored user; "user not found" exactly when a verified token's id is absent or names no user; every other refusal is an authentication error |
| Realtime.SocketServer.constructor | server/socket/index.js:22 | the server starts with no sockets, no rooms, an empty `onlineUsers` map and nothing emitted |
| Realtime.SocketServer.Emit | server/socket/index.js:33 | every emit is appended to the outbox, once, with its audience and the sockets that audience reaches at that moment; nothing else changes |
| Realtime.SocketServer.Connect | server/socket/index.js:7-33 | a refused connection changes nothing; an accepted one registers the socket with no rooms, overwrites the user's `onlineUsers` entry with this socket, marks the stored user online with this socket id, and appends exactly one `userOnline` addressed to every other socket; stored presence keeps agreeing with `onlineUsers` |
| Realtime.SocketServer.JoinChat | server/socket/index.js:36-38 | only this socket's room set changes, gaining the room |
| Realtime.SocketServer.LeaveChat | server/socket/index.js:41-43 | only this socket's room set changes, losing the room |
| Realtime.SocketServer.Typing | server/socket/index.js:46-48 | only the outbox changes: one `typing` with the chat and name, to the room's members other than the sender |
| Realtime.SocketServer.StopTyping | server/socket/index.js:50-52 | only the outbox changes: one `stopTyping` to the room's members other than the sender |
| Realtime.MarkReadBy | server/socket/index.js:56-59 | every listed message, whatever its chat, gains the reader in `readBy`, set-style; unlisted messages, messages already read by the reader, and every field but `readBy` (so `deliveredTo` too) are unchanged |
| Realtime.MarkReadByIdempotent | server/socket/index.js:56-59 | re-reading the same messages adds nothing |
| Realtime.SocketServer.MessageRead | server/socket/index.js:55-61 | the store's messages become `MarkReadBy` of the old ones for the socket's user, then exactly one `messagesRead` goes to the room's other sockets; presence is untouched |
| Realtime.MarkDelivered | server/socket/index.js:65-69 | the user is added to `deliveredTo` set-style, nothing else changes, and a repeat changes nothing |
| Realtime.SocketServer.MessageDeliveredTo | server/socket/index.js:64-73 | an unknown id changes nothing and emits nothing; otherwise the first message with that id gets `MarkDelivered`, and one `messageDelivered` goes to the other sockets of that message's chat room |
| Realtime.SocketServer.Disconnect | server/socket/index.js:76-87 | the socket and its rooms are dropped; the user's `onlineUsers` entry is deleted even if another socket of theirs is open; the stored user goes offline with `lastSeen` set to the clock and no socket id; one `userOffline` goes to every other socket |
| MessageController.Visible | server/controllers/messageController.js:10 | a message is fetchable exactly when it belongs to the chat and is not deleted |
| MessageController.Window | server/controllers/messageController.js:17-19 | the window holds as many items as remain after skipping `skip` of the newest, cut to `limit` unless the limit is 0 |
| MessageController.Page | server/controllers/messageController.js:8-19 | the query fails with 500 exactly when `(page - 1) * limit` is negative; otherwise it returns as many messages as remain of the fetchable ones after the skip, at most `limit` unless the limit is 0 |
| MessageController.WindowSlice | server/controllers/messageController.js:17-19 | sorting newest first, skipping, limiting and reversing yields the contiguous slice of the oldest-first list that ends `skip` before the newest item and holds at most `limit` items; a limit of 0 keeps all |
| MessageController.WindowContents | server/controllers/messageController.js:17-31 | a window of an ordered collection holds only its elements, at most `limit` of them, oldest first, as one consecutive run |
| MessageController.PageContents | server/controllers/messageController.js:8-31 | the fetch fails exactly when `(page - 1) * limit` is negative; a page holds only non-deleted messages of the chat, at most `limit`, oldest first, consecutive among the fetchable ones |
| MessageController.MarkChatRead | server/controllers/messageController.js:22-29 | each message of the chat that someone else sent and the requester has not read gets the requester pushed onto `readBy`; all other messages, and every other field, are unchanged |
| MessageController.MarkChatReadSpec | server/controllers/messageController.js:22-29 | afterwards no message of the whole chat is unread for the requester; repeating the update changes nothing; a duplicate-free `readBy` stays duplicate-free |
| MessageController.GetMessages | server/controllers/messageController.js:5-35 | the answer is the page as it stood before the update; on an error the store is unchanged, otherwise the messages become `MarkChatRead` of the old ones |
| MessageController.NewRecord | server/controllers/messageController.js:42-51 | a created message carries the given chat, sender and time, is not deleted or starred, and has `readBy = deliveredTo = [sender]`, so it is never unread for its sender |
| MessageController.SetLastMessage | server/controllers/messageController.js:54 | only the first chat with the id changes, to `lastMessage` = the new message with a fresh `updatedAt`; an unknown chat leaves the list as it was |
| MessageController.CreateMessage | server/controllers/messageController.js:42-54 | exactly one record, `NewRecord` with a fresh id and the current time, is appended; the chat points at it; the id counter and clock advance by one |
| MessageController.SendMessage | server/controllers/messageController.js:38-72 | a `type` outside the schema enum fails with 500 and changes nothing; otherwise one message is created and exactly one `newMessage` carrying it goes to the chat's whole room |
| MessageController.DeleteMessage | server/controllers/messageController.js:75-93 | with `forEveryone` exactly "true", the first record with the id stays, marked deleted, with the placeholder content; otherwise every record with that id is removed and the rest keep their order |
| MessageController.HardDeleteSpec | server/controllers/messageController.js:84-87 | the hard delete keeps a message exactly when its id differs, each as often as before |
| MessageController.ToggleStar | server/controllers/messageController.js:99-103 | the requester's membership in `starred` flips and nobody else's changes |
| MessageController.ToggleStarTwice | server/controllers/messageController.js:98-105 | two toggles restore who has starred the message, and restore the list exactly when the requester had not starred it |
| MessageController.ToggleStarTwiceMoves | server/controllers/messageController.js:101-103 | `[7, 8]` toggled twice for 7 becomes `[8, 7]`: the exact list is not restored in general |
| MessageController.StarMessage | server/controllers/messageController.js:96-109 | an unknown id fails with 500 and changes nothing; otherwise the first message with the id gets `ToggleStar` and the answer is the new membership |
| MessageController.UploadFile | server/controllers/messageController.js:112-128 | no file gives 400 "No file uploaded" and nothing else does; otherwise the answer carries the file's original name and size and a URL ending in `/uploads/` and the stored name |
| ChatController.FindPrivate | server/controllers/chatController.js:10-13 | a found chat is private with both users among its members; none is found exactly when no such chat is stored |
| ChatController.FindAfterCreate | server/controllers/chatController.js:10-25 | once the private chat is created, the next lookup by either of the two users finds it |
| ChatController.AccessChat | server/controllers/chatController.js:6-34 | an existing private chat of the two is returned and nothing changes; otherwise exactly one chat with `users = [me, other]` and `isGroup = false` is appended and returned |
| ChatController.NewPrivate | server/controllers/chatController.js:22-25 | the created chat has the fresh id, `users = [me, other]`, no name, admin or last message, and is the private chat of the two looked up from either side |
| ChatController.UnreadCount | server/controllers/chatController.js:51-55 | the count is zero exactly when no message of the chat is from someone else and unread by me |
| ChatController.FetchClearsUnread | server/controllers/chatController.js:51-55 | after a message fetch marks a chat read, that chat's count is 0 and every other chat's count is as before |
| ChatController.WithUnread | server/controllers/chatController.js:49-58 | each listed chat is paired with its own unread count, in order |
| ChatController.ChatList | server/controllers/chatController.js:38-64 | the answer lists exactly the chats I belong to, each as often as stored, ordered by `updatedAt` descending, each with its unread count |
| ChatController.ChatListMembers | server/controllers/chatController.js:39 | a chat is listed exactly when it is stored and I am among its users |
| ChatController.CreateGroup | server/controllers/chatController.js:67-92 | a missing user list fails with 500 and fewer than two users with 400; both create nothing; otherwise one group is appended with the creator first, then the given users, and the creator as admin |
| ChatController.UpdateMembers | server/controllers/chatController.js:116-120 | a `findByIdAndUpdate` of a chat's members: an unknown id returns nothing and changes nothing; otherwise only that chat changes, in its members and `updatedAt` |
| ChatController.AddToGroup | server/controllers/chatController.js:114-128 | the first chat with the id gets the user added set-style; an unknown id returns nothing and changes nothing |
| ChatController.RemoveFromGroup | server/controllers/chatController.js:131-145 | the first chat with the id loses every occurrence of the user, the others keeping their order; an unknown id returns nothing and changes nothing |
| ChatController.MembershipChanges | server/controllers/chatController.js:118-135 | adding an absent user and then removing them restores the member list; after a remove the user is absent and after an add present; other members are unaffected |
| ChatController.DeleteChat | server/controllers/chatController.js:148-156 | the chat's messages and the chat are removed; every other message and chat stays, in order |
| ChatController.DeleteChatSpec | server/controllers/chatController.js:150-151 | afterwards no message refers to the chat, nobody's chat list shows it, and every message of another chat is kept as often as before |
| ChatContext.Touch | client/src/context/ChatContext.jsx:47-50 | only chats whose id is the message's chat change, taking it as last message and the new time; the others are kept unchanged, in place |
| ChatContext.BumpChats | client/src/context/ChatContext.jsx:47-51 | the new list is a permutation of the touched one, sorted by `updatedAt` descending |
| ChatContext.BumpMembers | client/src/context/ChatContext.jsx:47-51 | a chat is in the new list exactly when it is in the touched one |
| ChatContext.BumpChatsSpec | client/src/context/ChatContext.jsx:47-51 | every other chat is still listed unchanged; the message's chat carries the message and the new time; nothing else is listed |
| ChatContext.BumpChatsFirst | client/src/context/ChatContext.jsx:47-51 | when every other chat is older than the new time, the message's chat moves to the top |
| ChatContext.AdjustUnread | client/src/context/ChatContext.jsx:54-60 | only the named chat changes: its count becomes 0 on a reset, otherwise its old count (absent counts as 0) plus one |
| ChatContext.AdjustUnreadSpec | client/src/context/ChatContext.jsx:54-60 | a reset undoes earlier increments; an increment after a reset gives 1; the list order, so its sortedness, is kept |
| ChatContext.ChatProvider.constructor | client/src/context/ChatContext.jsx:9-11 | the provider starts with no chats, no open chat and no messages |
| ChatContext.ChatProvider.ChatsFetched | client/src/context/ChatContext.jsx:14-23 | a fetched list replaces the chats; a failed fetch keeps them |
| ChatContext.ChatProvider.SelectChat | client/src/context/ChatContext.jsx:34-41 | the chat becomes the open one; clearing the selection empties the messages |
| ChatContext.ChatProvider.MessagesFetched | client/src/context/ChatContext.jsx:25-32 | a fetched list replaces the messages; a failed fetch keeps them |
| ChatContext.ChatProvider.AddMessage | client/src/context/ChatContext.jsx:43-52 | the message is appended after the unchanged earlier ones, and the chats become `BumpChats`, sorted and of the same length |
| ChatContext.ChatProvider.UpdateChatUnread | client/src/context/ChatContext.jsx:54-60 | the chats become `AdjustUnread` of the old list, and sortedness is kept |
| ChatWindow.OtherUser | client/src/component/ChatWindow.jsx:32 | the first participant whose id is not mine; none exactly when there is no open chat or every participant is me |
| ChatWindow.OnTyping | client/src/component/ChatWindow.jsx:44-46 | a `typing` for the open chat shows the sender's name; for any other chat the indicator is unchanged |
| ChatWindow.OnStopTyping | client/src/component/ChatWindow.jsx:48-50 | a `stopTyping` for the open chat clears the indicator; for any other chat it is unchanged |
| ChatWindow.TypingIndicator | client/src/component/ChatWindow.jsx:44-50 | for the open chat, `typing` shows the sender's name and `stopTyping` clears it, whatever came before; events for other chats leave the indicator alone |
| ChatWindow.MergeRead | client/src/component/ChatWindow.jsx:54-59 | every message ends with the reader in `readBy`; messages that had it are unchanged, the others gain it at the end; nothing else changes |
| ChatWindow.OnMessagesRead | client/src/component/ChatWindow.jsx:52-61 | the list keeps its length and ids; for the open chat every message ends read by the reader; for another chat the list is unchanged |
| ChatWindow.MessagesReadSpec | client/src/component/ChatWindow.jsx:52-60 | the handler keeps the list's length, ids and order; for the open chat every message, listed in the event or not, ends read by the reader; an event for another chat changes nothing; a repeated event changes nothing |
| ChatWindow.UnreadIds | client/src/component/ChatWindow.jsx:73-75 | the ids, in list order, of exactly the messages someone else sent that I have not read; empty exactly when there are none |
| ChatWindow.ReadReceipt | client/src/component/ChatWindow.jsx:71-81 | a receipt is emitted exactly when a chat is open and some message is unread for me, and it names that chat and `UnreadIds` |
| ChatWindow.ReceiptClearsUnread | client/src/component/ChatWindow.jsx:73-78 | once the server applies the receipt, no message of the list is unread for me |
| ChatWindow.OutgoingText | client/src/component/ChatWindow.jsx:94-99 | nothing is sent exactly when the text is all whitespace; otherwise the trimmed, non-empty text |
| ChatWindow.SendBody | client/src/component/ChatWindow.jsx:92-102 | a post happens exactly when the guard passes; it goes to the open chat with the trimmed text, the type "text", and the id of the message replied to |
| ChatWindow.SentTextStable | client/src/component/ChatWindow.jsx:94-99 | the posted text would pass the guard unchanged |
| ChatWindow.Status | client/src/component/ChatWindow.jsx:243-249 | read exactly when `readBy` has more than one entry, delivered exactly when it does not but `deliveredTo` has, sent otherwise |
| ChatWindow.StatusIcon | client/src/component/ChatWindow.jsx:241-250 | exactly my own messages carry a tick; it is read exactly when `readBy` has more than one entry, delivered exactly when it does not but `deliveredTo` has, and sent otherwise |
| ChatWindow.StatusLifecycle | client/src/component/ChatWindow.jsx:241-250 | a created message shows sent; delivered to another user it shows delivered; read by another user it shows read, and a later delivery keeps read |
| ChatWindow.DaysOf | client/src/component/ChatWindow.jsx:139-147 | the group keys are exactly the days of the messages, without repeats |
| ChatWindow.InDay | client/src/component/ChatWindow.jsx:143-144 | a day's group is exactly that day's messages, in their relative order |
| ChatWindow.GroupByDate | client/src/component/ChatWindow.jsx:139-147 | the loop builds one group per day that occurs, in first-occurrence order, each holding `InDay` of that day |
| ChatWindow.GroupSizesSum | client/src/component/ChatWindow.jsx:139-147 | the group sizes add up to the number of messages, so each message is in exactly one group |
| Sidebar.GetOtherUser | client/src/component/Sidebar.jsx:25-27 | the first participant whose id is not mine; none exactly when every participant is me |
| Sidebar.FilteredChatsAsWritten | client/src/component/Sidebar.jsx:19-27 | an empty search lists every chat; with a non-empty search the render fails exactly when a private chat is listed |
| Sidebar.SearchWithPrivateChatFails | client/src/component/Sidebar.jsx:19-25 | searching "a" with one private chat throws a ReferenceError on `getOtherUser` |
| Sidebar.FilteredChats | client/src/component/Sidebar.jsx:19-23 | an empty search lists every chat; otherwise exactly the chats whose display name contains the search ignoring case, in order |
| Sidebar.AsWrittenAgrees | client/src/component/Sidebar.jsx:19-27 | where the code as written does not throw, it lists what the corrected filter lists |
| Sidebar.Clip | client/src/component/Sidebar.jsx:46 | up to 30 characters are kept whole; a longer text becomes its first 30 characters followed by "..." |
| Sidebar.Shown | client/src/component/Sidebar.jsx:42-46 | at most 33 characters; a text message shows its content, with at least its first 30 characters, whole when it has at most 30; missing content shows "undefined"; any other type shows the start of "📎 " and the type |
| Sidebar.LastMessagePreview | client/src/component/Sidebar.jsx:37-47 | the preview never exceeds 38 characters: a 5-character "You: " and at most 33 shown |
| Sidebar.PreviewSpec | client/src/component/Sidebar.jsx:37-47 | no last message gives "No messages yet" and a deleted one the fixed deleted text; otherwise "You: " exactly for my own messages, then "📎 " and the type for non-text messages or else the clipped content, at most 33 characters |
| Sidebar.ClipLong | client/src/component/Sidebar.jsx:46 | a 34-character text is shown as its first 30 characters and "..." |
| Sidebar.SidebarTick | client/src/component/Sidebar.jsx:135-140 | a tick shows exactly for my own last message, and it is read exactly when `readBy` has more than one entry |
| Sidebar.SidebarTickAgrees | client/src/component/Sidebar.jsx:135-140 | the list never shows delivered: it agrees with the conversation's tick on read and shows a delivered message as sent |
| NewGroupModal.FilterContacts | client/src/component/NewGroupModal.jsx:29-31 | exactly the contacts whose name contains the search ignoring case, in order; an empty search keeps all |
| NewGroupModal.EmptySearchKeepsAll | client/src/component/NewGroupModal.jsx:29-31 | the empty search keeps every contact |
| NewGroupModal.ToggleSelect | client/src/component/NewGroupModal.jsx:33-39 | a contact whose id is selected is removed with every entry of that id, the rest kept in order; otherwise it is appended at the end |
| NewGroupModal.ToggleKeepsDistinct | client/src/component/NewGroupModal.jsx:33-39 | toggling never introduces a duplicate id |
| NewGroupModal.ToggleTwice | client/src/component/NewGroupModal.jsx:33-39 | toggling an unselected contact twice restores the list exactly; toggling any contact twice restores who is selected |
| NewGroupModal.ToggleTwiceMoves | client/src/component/NewGroupModal.jsx:33-39 | `[a, b]` toggled twice on `a` becomes `[b, a]` |
| NewGroupModal.CreateGroupRequest | client/src/component/NewGroupModal.jsx:41-49 | nothing is sent exactly when the trimmed name is empty or fewer than two contacts are selected; the request carries the name as typed and the selected ids in selection order |
| NewGroupModal.NextAndCreate | client/src/component/NewGroupModal.jsx:117 | with fewer than two selected (no next button) no request is possible; with the button shown and a name that is not all whitespace the request is made |
| NewGroupModal.AfterCreate | client/src/component/NewGroupModal.jsx:50 | the created chat is prepended to the unchanged list |
| NewChatModal.FilterContacts | client/src/component/NewChatModal.jsx:27-30 | exactly the contacts whose name contains the search ignoring case or whose phone contains it as typed, in order; an empty search keeps all |
| NewChatModal.EmptySearchKeepsAll | client/src/component/NewChatModal.jsx:27-30 | the empty search keeps every contact |
| NewChatModal.PhoneSearch | client/src/component/NewChatModal.jsx:27-30 | a piece of the phone number finds the contact, and so does its name in another letter case |
| NewChatModal.StartChat | client/src/component/NewChatModal.jsx:35-39 | a chat whose id is listed leaves the list unchanged; otherwise the chat is prepended; either way the list grows by at most one and holds the chat's id |
| NewChatModal.StartChatSpec | client/src/component/NewChatModal.jsx:35-39 | opening the same chat again changes nothing; a list without duplicate ids keeps none and holds exactly one entry with the chat's id |
| Upload.ExtName | server/middleware/upload.js:19 | the extension is empty or a '.' followed by characters that are neither '.' nor '/' |
| Upload.NoExtensionRejected | server/middleware/upload.js:19-23 | a name without a '.' has an empty extension and is refused |
| Upload.StemExtension | server/middleware/upload.js:19 | for a stem without '.' or '/' and a dotted suffix with no further '.', the filter sees the lower-cased suffix after its '.' |
| Upload.UnanchoredMatch | server/middleware/upload.js:18-20 | any such stem followed by ".xpdfz" has extension "xpdfz" and passes, because the pattern is unanchored |
| Upload.UpperCaseAccepted | server/middleware/upload.js:19-20 | any such stem followed by ".PDF" is seen as "pdf" and passes |
| Upload.TxtRefused | server/middleware/upload.js:18-23 | any such stem followed by ".txt" is seen as "txt" and is refused |
| Upload.AcceptsIgnoresCase | server/middleware/upload.js:19 | a name and its lower-cased form have the same extension and the same verdict |
| Upload.SizeLimit | server/middleware/upload.js:16 | 52428800 bytes are within the limit and 52428801 are not |
| Upload.StoredNameKeepsExtension | server/middleware/upload.js:9 | the stored name has the original name's extension |
| Upload.Receive | server/middleware/upload.js:8-25 | a file is stored exactly when its type passes and its size is within the limit; the type refusal comes first; a stored file keeps the original name, the size and the extension |

## Left out

- MessageController.ToggleStarTwice: two toggles restore the exact `starred` list only when the requester had not starred it. Otherwise the id moves to the end, so the lemma states membership restoration in general and exact restoration in that case.
- NewGroupModal.ToggleTwice: toggling a selected contact twice moves it to the end of the selection, for the same reason; the lemma states both halves as for stars.
- Timestamps inside `readBy` and `deliveredTo` (`readAt`, `deliveredAt`) are not modelled. The entries are keyed by user alone, as the client's dedupe on `r.user` treats them.
- Whether MongoDB's `$addToSet` would treat two `{ user, readAt }` subdocuments as equal is a driver detail. `$addToSet` is modelled as a set-style add keyed by user.
- JWT verification is the function parameter `verify`. It gives `None` when verification throws and otherwise the payload's `id`, which may be absent. A verified token without an id is refused as "User not found", as `findById(undefined)` finds nothing.
- `populate` is not modelled, nor is the re-fetch of a created record. The server answers with the stored records; the client's `ChatView` and `Contact` stand for the populated shapes.
- Query-string coercion is not modelled. `page` and `limit` are numbers, and `forEveryone` is compared as a string.
- The defaults of the query, `page = 1` and `limit = 50`, are not modelled: both are always passed in.
- A negative `limit` is not modelled (`limit` is a `nat`). Only a negative skip is modelled as the query error.
- The ObjectId casting errors that make a call with a malformed id fail with 500 are not modelled.
- The async interleaving of socket handlers and HTTP requests is left out. So are the order in which concurrent fetches settle and socket.io's transport and room delivery (the outbox records recipients instead).
- Strings are sequences of code points, not UTF-16 units. The 30-character cut of the preview counts code points.
- `toLowerCase` maps ASCII letters only.
- Group creation sets `groupImage`, a URL built with `encodeURIComponent`; it is not modelled.
- Date formatting with date-fns is the parameter `dayOf`. Day labels and the message, chat and last-seen times are not rendered.
- The client's 2-second typing timeout (`handleTyping`) is left out. So are file upload from the browser, the loading flags, scrolling, and all JSX markup.
- `updateGroup` and the user controller are not part of this model. Neither are authentication routes, bcrypt hashing, the Express bootstrap and the routers.
- `addToGroup` and `removeFromGroup` check neither that the chat is a group nor that the caller is its admin. The model follows the code.
- The sort used by `getChats` and `addMessage` is modelled as one stable descending sort. `Array.prototype.sort` is stable, as is `SortDesc`, so the client's ties come out as the source orders them. MongoDB leaves the order of ties unspecified; the model orders them stably.
- Multer's size limit is modelled as a check on the whole file's size.
- Realtime.SocketServer.Disconnect: the source reads `new Date()` twice, once for the stored `lastSeen` and once for the `userOffline` payload. The model uses one clock reading for both.
- A message body without `chatId` fails the schema's `required` check with 500. In the model `chatId` is a number and cannot be missing.
- `path.extname` is modelled for POSIX separators. Windows separators are not modelled.

## Consequences of the code worth knowing

The model follows the code in each of these cases:
- Presence is kept per user, not per connection. `onlineUsers` maps a user to a single socket id (server/socket/index.js:22, :30). Every connect overwrites that id and broadcasts `userOnline`. Any disconnect deletes the entry and broadcasts `userOffline` (:85-86). A user with two connections is therefore reported offline when either closes.
- A read receipt does not record delivery. `messageRead` adds to `readBy` alone (server/socket/index.js:55-61). The tick tests `readBy` before `deliveredTo` (client/src/component/ChatWindow.jsx:243-245), so a message read without a delivery record still shows as read.
- The server keeps no typing state. It only relays `typing` and `stopTyping` to the room (server/socket/index.js:46-52), and the only timeout is the client's (client/src/component/ChatWindow.jsx:83-90).
- A delete without `forEveryone=true` removes the record for every participant (server/controllers/messageController.js:84-86). The flag's name, and the comment on that branch, suggest a delete for the requester alone, but no per-user list exists.

## Findings

| source | as written | input that shows it | evidently intended | confidence | as-written member | corrected member |
|---|---|---|---|---|---|---|
| client/src/component/Sidebar.jsx:19-25 | the `filteredChats` callback calls `getOtherUser`, a `const` declared after it in the same render, so the first private chat reached with a non-empty search throws a ReferenceError and the chat list cannot render | a search of "a" while a private chat is listed (`Sidebar.SearchWithPrivateChatFails`) | private chats are matched on the other participant's name | not executed | Sidebar.FilteredChatsAsWritten | Sidebar.FilteredChats |
