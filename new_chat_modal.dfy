/** client/src/component/NewChatModal.jsx: searching contacts and opening a private chat. */
module NewChatModal {
  import opened Wrappers
  import opened Models
  import opened Seqs
  import Text

  /** The search test: the name contains it, ignoring case, or the phone number contains it as typed. */
  predicate ContactMatches(c: Contact, search: string)
  {
    Text.ContainsIgnoringCase(c.name, search) || Text.Contains(c.phone, search)
  }

  function MatchesSearch(search: string): Contact -> bool
  {
    (c: Contact) => ContactMatches(c, search)
  }

  /** `filteredContacts`: the matching contacts in order; an empty search keeps them all. */
  function FilterContacts(contacts: seq<Contact>, search: string): (r: seq<Contact>)
    ensures forall c :: c in r <==> c in contacts && ContactMatches(c, search)
    ensures Subseq(r, contacts)
    ensures search == [] ==> r == contacts
  {
    EmptySearchKeepsAll(contacts);
    Filter(contacts, MatchesSearch(search))
  }

  /** Every contact matches the empty search. */
  lemma EmptySearchKeepsAll(contacts: seq<Contact>)
    ensures Filter(contacts, MatchesSearch([])) == contacts
  {
    forall c | c in contacts ensures MatchesSearch([])(c) {
      Text.ContainsEmpty(Text.Lower(c.name));
    }
    FilterAll(contacts, MatchesSearch([]));
  }

  /** A search finds a contact by a piece of its phone number whatever its name, and by its name
      in any letter case. */
  lemma PhoneSearch()
    ensures ContactMatches(Contact(1, "Ann", "555-0101"), "0101")
    ensures ContactMatches(Contact(1, "Ann", "555-0101"), "aNN")
  {
    assert "0101" <= "555-0101"[4..];
    Text.ContainsAt("555-0101", "0101");
    assert Text.Lower("Ann") == "ann" && Text.Lower("aNN") == "ann";
  }

  predicate Listed(chats: seq<ChatView>, id: ChatId)
  {
    exists c :: c in chats && c.id == id
  }

  /** No two chats in the list share an id. */
  predicate DistinctChatIds(chats: seq<ChatView>)
  {
    forall i, j :: 0 <= i < j < |chats| ==> chats[i].id != chats[j].id
  }

  /** The `startChat` updater: the chat the server answered with goes first, unless a chat with
      its id is already listed, in which case the list stays as it is. */
  function StartChat(chats: seq<ChatView>, data: ChatView): (r: seq<ChatView>)
    ensures Listed(chats, data.id) ==> r == chats
    ensures !Listed(chats, data.id) ==> r == [data] + chats
    ensures |chats| <= |r| <= |chats| + 1 && Listed(r, data.id)
  {
    if Listed(chats, data.id) then chats
    else
      assert data in [data] + chats;
      [data] + chats
  }

  /** Opening the same chat again changes nothing, and a list without duplicate ids keeps that
      property, with exactly one entry for the opened chat. */
  lemma StartChatSpec(chats: seq<ChatView>, data: ChatView)
    ensures StartChat(StartChat(chats, data), data) == StartChat(chats, data)
    ensures DistinctChatIds(chats) ==> DistinctChatIds(StartChat(chats, data))
    ensures DistinctChatIds(chats) ==>
      var r := StartChat(chats, data);
      exists i :: 0 <= i < |r| && r[i].id == data.id && forall j :: 0 <= j < |r| && r[j].id == data.id ==> j == i
  {
    var r := StartChat(chats, data);
    if DistinctChatIds(chats) && !Listed(chats, data.id) {
      forall i, j | 0 <= i < j < |r| ensures r[i].id != r[j].id {
        if i == 0 {
          assert r[j] == chats[j - 1] && chats[j - 1] in chats;
        }
      }
    }
    if DistinctChatIds(r) {
      var c :| c in r && c.id == data.id;
      var i :| 0 <= i < |r| && r[i] == c;
    }
  }
}
