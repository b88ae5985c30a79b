/** client/src/component/NewGroupModal.jsx: picking participants for a new group and the request
    that creates it. */
module NewGroupModal {
  import opened Wrappers
  import opened Models
  import opened Seqs
  import Text

  function NameMatches(search: string): Contact -> bool
  {
    (c: Contact) => Text.ContainsIgnoringCase(c.name, search)
  }

  /** `filteredContacts`: the contacts whose name contains the search, ignoring case, in order. */
  function FilterContacts(contacts: seq<Contact>, search: string): (r: seq<Contact>)
    ensures forall c :: c in r <==> c in contacts && Text.ContainsIgnoringCase(c.name, search)
    ensures Subseq(r, contacts)
    ensures search == [] ==> r == contacts
  {
    EmptySearchKeepsAll(contacts);
    Filter(contacts, NameMatches(search))
  }

  /** Every name contains the empty search. */
  lemma EmptySearchKeepsAll(contacts: seq<Contact>)
    ensures Filter(contacts, NameMatches([])) == contacts
  {
    forall c | c in contacts ensures NameMatches([])(c) {
      Text.ContainsEmpty(Text.Lower(c.name));
    }
    FilterAll(contacts, NameMatches([]));
  }

  /** No two entries share an id. */
  predicate DistinctIds(cs: seq<Contact>)
  {
    forall i, j :: 0 <= i < j < |cs| ==> cs[i].id != cs[j].id
  }

  predicate Selected(selected: seq<Contact>, id: UserId)
  {
    exists c :: c in selected && c.id == id
  }

  function OtherThan(id: UserId): Contact -> bool
  {
    (c: Contact) => c.id != id
  }

  /** `toggleSelect`: a contact whose id is already selected is removed, every entry with that id;
      otherwise the contact is appended after the earlier selections. */
  function ToggleSelect(selected: seq<Contact>, contact: Contact): (r: seq<Contact>)
    ensures Selected(selected, contact.id) ==>
      && !Selected(r, contact.id)
      && (forall c: Contact :: c.id != contact.id ==> (c in r <==> c in selected))
      && Subseq(r, selected)
    ensures !Selected(selected, contact.id) ==> r == selected + [contact]
  {
    if Selected(selected, contact.id) then Filter(selected, OtherThan(contact.id)) else selected + [contact]
  }

  lemma {:induction false} FilterKeepsDistinct(s: seq<Contact>, keep: Contact -> bool)
    requires DistinctIds(s)
    ensures DistinctIds(Filter(s, keep))
  {
    if s != [] {
      FilterKeepsDistinct(s[1..], keep);
      var rest := Filter(s[1..], keep);
      if keep(s[0]) {
        var r := [s[0]] + rest;
        forall j | 0 < j < |r| ensures r[0].id != r[j].id {
          assert r[j] == rest[j - 1] && rest[j - 1] in s[1..];
        }
      }
    }
  }

  /** Toggling never creates two selections with the same id. */
  lemma ToggleKeepsDistinct(selected: seq<Contact>, contact: Contact)
    requires DistinctIds(selected)
    ensures DistinctIds(ToggleSelect(selected, contact))
  {
    if Selected(selected, contact.id) {
      FilterKeepsDistinct(selected, OtherThan(contact.id));
    } else {
      var r := selected + [contact];
      forall i, j | 0 <= i < j < |r| ensures r[i].id != r[j].id {
        if j == |selected| {
          assert r[i] in selected;
        }
      }
    }
  }

  /** Toggling a contact that is not selected, twice, restores the selection exactly; toggling any
      contact twice restores who is selected apart from that contact, which ends up selected
      again exactly when it was before. */
  lemma ToggleTwice(selected: seq<Contact>, contact: Contact)
    ensures !Selected(selected, contact.id) ==> ToggleSelect(ToggleSelect(selected, contact), contact) == selected
    ensures var r := ToggleSelect(ToggleSelect(selected, contact), contact);
      && (Selected(r, contact.id) <==> Selected(selected, contact.id))
      && (forall c: Contact :: c.id != contact.id ==> (c in r <==> c in selected))
  {
    var once := ToggleSelect(selected, contact);
    if !Selected(selected, contact.id) {
      assert contact in once;
      assert forall c :: c in selected ==> OtherThan(contact.id)(c);
      FilterAppend(selected, contact, OtherThan(contact.id));
      FilterAll(selected, OtherThan(contact.id));
    } else {
      var c :| c in selected && c.id == contact.id;
      assert contact in once + [contact];
    }
  }

  /** A selected contact toggled twice moves to the end of the selection. */
  lemma ToggleTwiceMoves()
    ensures var a, b := Contact(1, "A", "1"), Contact(2, "B", "2");
      ToggleSelect(ToggleSelect([a, b], a), a) == [b, a]
  {
    var a, b := Contact(1, "A", "1"), Contact(2, "B", "2");
    assert Selected([a, b], a.id) by { assert a in [a, b]; }
    assert [a, b][1..] == [b];
    assert Filter([b], OtherThan(1)) == [b];
    assert !Selected([b], a.id);
  }

  /** The body of `POST /chats/group`. */
  datatype GroupRequest = GroupRequest(name: string, users: seq<UserId>)

  /** `createGroup`: nothing is sent unless the trimmed name is non-empty and at least two contacts
      are selected; the request carries the name as typed and the selected ids in selection order. */
  function CreateGroupRequest(groupName: string, selected: seq<Contact>): (r: Option<GroupRequest>)
    ensures r.None? <==> Text.Trim(groupName) == [] || |selected| < 2
    ensures r.Some? ==>
      && r.value.name == groupName
      && |r.value.users| == |selected| >= 2
      && forall i :: 0 <= i < |selected| ==> r.value.users[i] == selected[i].id
  {
    if Text.Trim(groupName) == [] || |selected| < 2 then None
    else Some(GroupRequest(groupName, seq(|selected|, i requires 0 <= i < |selected| => selected[i].id)))
  }

  /** The next-step button is shown once two contacts are selected. */
  predicate NextVisible(selected: seq<Contact>)
  {
    |selected| >= 2
  }

  /** With the button shown, a named group is sent; without it, nothing is. A request the modal
      sends names at least two users, so the server's size check accepts it. */
  lemma NextAndCreate(groupName: string, selected: seq<Contact>)
    ensures !NextVisible(selected) ==> CreateGroupRequest(groupName, selected).None?
    ensures NextVisible(selected) && !(forall i :: 0 <= i < |groupName| ==> Text.IsJsWhitespace(groupName[i])) ==>
      CreateGroupRequest(groupName, selected).Some?
  {
    Text.TrimSpec(groupName);
  }

  /** `setChats(prev => [data, ...prev])`: the created group goes first. */
  function AfterCreate(chats: seq<ChatView>, created: ChatView): (r: seq<ChatView>)
    ensures |r| == |chats| + 1 && r[0] == created && r[1..] == chats
  {
    [created] + chats
  }
}
