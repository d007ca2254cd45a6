/** The rows each operation of the mail store adds, changes or removes, one by one, and what becomes of the queue rows
  * of a sent message. */
module MailRows {
  import opened Wrappers
  import opened MailStore
  import opened MailStoreRuns

  // ---------------------------------------------------------------- sending

  /** The queue rows of one message. */
  function RowsOf(queue: map<nat, QueueRow>, message: nat): set<nat> {
    set q | q in queue && queue[q].message == Some(message)
  }

  lemma {:induction false} QueueingIsExact(s: State, message: nat, copies: nat)
    requires forall q :: q in s.queue ==> q < s.nextId
    ensures var t := QueuedFor(s, message, copies);
      && t == s.(queue := t.queue, nextId := s.nextId + copies)
      && (forall q :: q in t.queue <==> q in s.queue || s.nextId <= q < s.nextId + copies)
      && (forall q :: q in s.queue ==> t.queue[q] == s.queue[q])
      && (forall q: nat :: s.nextId <= q < s.nextId + copies ==>
            q in t.queue && t.queue[q] == QueueRow(Some(message), None))
    decreases copies
  {
    if copies > 0 {
      var s1 := s.(queue := s.queue[s.nextId := QueueRow(Some(message), None)], nextId := s.nextId + 1);
      QueueingIsExact(s1, message, copies - 1);
    }
  }

  function Range(from: nat, count: nat): (r: set<nat>)
    ensures |r| == count && forall q :: q in r <==> from <= q < from + count
  {
    if count == 0 then {} else Range(from, count - 1) + {from + count - 1}
  }

  /** A sent message is one row in the sender's mailbox and exactly one queue row per recipient; nothing else changes
    * but the blob that is stored. */
  lemma SentIsExact(hash: string -> string, s: State, user: nat, data: string, copies: nat)
    requires Referential(s) && user in s.users
    ensures var t, m := Sent(hash, s, user, data, copies), s.nextId;
      && t == s.(files := Written(hash, s.files, data), messages := t.messages, queue := t.queue, nextId := t.nextId)
      && t.messages == s.messages[m := Message(user, "sent", hash(data), true, false, false)] && m !in s.messages
      && (forall q :: q in s.queue ==> q in t.queue && t.queue[q] == s.queue[q])
      && (forall q :: q in t.queue && q !in s.queue ==> t.queue[q] == QueueRow(Some(m), None))
      && |RowsOf(t.queue, m)| == copies
      && forall id :: id != m ==> RowsOf(t.queue, id) == RowsOf(s.queue, id)
  {
    hide Written;
    var m := s.nextId;
    var s1 := Inserted(s.(files := Written(hash, s.files, data)), Fresh(user, "sent", hash(data)).(isRead := true));
    QueueingIsExact(s1, m, copies);
    var t := QueuedFor(s1, m, copies);
    assert RowsOf(t.queue, m) == Range(m + 1, copies);
    forall id | id != m ensures RowsOf(t.queue, id) == RowsOf(s.queue, id) {
      assert forall q :: q in RowsOf(t.queue, id) <==> q in RowsOf(s.queue, id);
    }
  }

  lemma SentByNobody(hash: string -> string, s: State, user: nat, data: string, copies: nat)
    ensures user !in s.users ==> Sent(hash, s, user, data, copies) == s
  {}

  /** A step either removes a message with its queue rows or leaves these as they are. */
  lemma StepKeepsRowsOf(hash: string -> string, s: State, e: Event, id: nat)
    requires Referential(s) && id in s.messages && id in Step(hash, s, e).messages
    ensures RowsOf(Step(hash, s, e).queue, id) == RowsOf(s.queue, id)
  {
    hide Written, Paths, BlobPath, ExclusiveBlobs, ExclusiveDomains, HasAddress, HasDirectAddress, RowsOf, Sent,
      UserDeleted, Delivered, DeletedForGood, RelaySubmitted, DomainRemoved, BounceStored, Trashed, Patched;
    match e {
      case Deliver(data, recipients) => DeliveryKeepsQueue(hash, s, data, recipients);
      case Send(user, data, copies) =>
        if user in s.users {
          SentIsExact(hash, s, user, data, copies);
        } else {
          SentByNobody(hash, s, user, data, copies);
        }
      case RemoveUser(user) =>
        if user in s.users {
          RemovalKeepsRowsOf(s, user, id);
        }
      case DeletePermanently(user, gone) => DeletionKeepsRowsOf(s, user, gone, id);
      case Relay(data) => RelayKeepsRowsOf(hash, s, data, id);
      case _ => OthersKeepQueue(hash, s, e);
    }
  }

  lemma OthersKeepQueue(hash: string -> string, s: State, e: Event)
    requires !e.Deliver? && !e.Send? && !e.RemoveUser? && !e.DeletePermanently? && !e.Relay?
    ensures Step(hash, s, e).queue == s.queue
  {
    hide Written, BlobPath, HasAddress, HasDirectAddress;
  }

  lemma {:induction false} DeliveryKeepsQueue(
    hash: string -> string, s: State, data: string, recipients: seq<Option<nat>>)
    ensures Delivered(hash, s, data, recipients).queue == s.queue
  {
    InsertionKeepsQueue(s.(files := Written(hash, s.files, data)), recipients, "inbox", hash(data));
  }

  lemma {:induction false} InsertionKeepsQueue(s: State, users: seq<Option<nat>>, folder: string, blob: string)
    ensures InsertedForAll(s, users, folder, blob).queue == s.queue
    decreases |users|
  {
    if users != [] {
      var here := users[0].Some? && users[0].value in s.users;
      var s1 := if here then Inserted(s, Fresh(users[0].value, folder, blob)) else s;
      InsertionKeepsQueue(s1, users[1..], folder, blob);
    }
  }

  lemma RemovalKeepsRowsOf(s: State, user: nat, id: nat)
    requires Referential(s) && id in s.messages && id in UserDeleted(s, user).messages
    ensures RowsOf(UserDeleted(s, user).queue, id) == RowsOf(s.queue, id)
  {
    hide Paths, ExclusiveBlobs, ExclusiveDomains;
    assert s.messages[id].user != user;
  }

  lemma DeletionKeepsRowsOf(s: State, user: nat, gone: nat, id: nat)
    requires id in DeletedForGood(s, user, gone).0.messages
    ensures RowsOf(DeletedForGood(s, user, gone).0.queue, id) == RowsOf(s.queue, id)
  {
    hide BlobPath, SomeMessageHas;
    var t := DeletedForGood(s, user, gone).0;
    assert forall q :: q in RowsOf(t.queue, id) <==> q in RowsOf(s.queue, id);
  }

  lemma RelayKeepsRowsOf(hash: string -> string, s: State, data: string, id: nat)
    requires Referential(s)
    ensures RowsOf(RelaySubmitted(hash, s, data).queue, id) == RowsOf(s.queue, id)
  {
    hide Written;
    assert s.nextId !in s.queue;
    assert forall q ::
      q in RowsOf(RelaySubmitted(hash, s, data).queue, id) <==> q in RowsOf(s.queue, id);
  }

  lemma {:induction false} RunKeepsRowsOf(hash: string -> string, s: State, es: seq<Event>, id: nat)
    requires HashOk(hash) && Inv(hash, s) && id in s.messages && id in Run(hash, s, es).messages
    ensures RowsOf(Run(hash, s, es).queue, id) == RowsOf(s.queue, id)
    decreases |es|
  {
    hide Step, Inv, RowsOf;
    if es != [] {
      StepKeeps(hash, s, es[0]);
      SameContentsStart(hash, s, id);
      NextIdGrows(hash, s, es[0]);
      NotReused(hash, Step(hash, s, es[0]), es[1..], id);
      KeepsReferences(hash, s);
      StepKeepsRowsOf(hash, s, es[0], id);
      RunKeepsRowsOf(hash, Step(hash, s, es[0]), es[1..], id);
    }
  }

  lemma KeepsReferences(hash: string -> string, s: State)
    requires Inv(hash, s)
    ensures Referential(s)
  {}

  /** Over every run: a sent message that is still there has exactly as many queue rows as it had recipients. */
  lemma SentKeepsItsRows(
    hash: string -> string, s: State, user: nat, data: string, copies: nat, es: seq<Event>)
    requires HashOk(hash) && Inv(hash, s) && user in s.users
    requires s.nextId in Run(hash, s, [Send(user, data, copies)] + es).messages
    ensures |RowsOf(Run(hash, s, [Send(user, data, copies)] + es).queue, s.nextId)| == copies
  {
    hide Inv, RowsOf, Run, Written;
    var e := Send(user, data, copies);
    KeepsReferences(hash, s);
    SentIsExact(hash, s, user, data, copies);
    StepKeeps(hash, s, e);
    RunFirst(hash, s, e, es);
    RunKeepsRowsOf(hash, Step(hash, s, e), es, s.nextId);
  }

  // ---------------------------------------------------------------- receiving

  /** The mailboxes found among the recipients, in order, repetitions included. */
  function Found(users: seq<Option<nat>>, known: set<nat>): seq<nat> {
    if users == [] then []
    else Found(users[..|users| - 1], known)
         + if users[|users| - 1].Some? && users[|users| - 1].value in known then [users[|users| - 1].value] else []
  }

  lemma {:induction false} FoundFirst(users: seq<Option<nat>>, known: set<nat>)
    requires users != []
    ensures Found(users, known) ==
            (if users[0].Some? && users[0].value in known then [users[0].value] else []) + Found(users[1..], known)
    decreases |users|
  {
    if |users| > 1 {
      var init := users[..|users| - 1];
      FoundFirst(init, known);
      assert init[1..] == users[1..][..|users| - 2] && users[1..][|users| - 2] == users[|users| - 1];
    }
  }

  /** `t` has the rows of `s` and, from its next number on, one unread inbox row for each of `found`. */
  ghost predicate AddsInbox(s: State, t: State, found: seq<nat>, blob: string) {
    && t == s.(messages := t.messages, nextId := s.nextId + |found|)
    && (forall id :: id in t.messages <==> id in s.messages || s.nextId <= id < s.nextId + |found|)
    && (forall id :: id in s.messages ==> t.messages[id] == s.messages[id])
    && (forall k :: 0 <= k < |found| ==>
          t.messages[s.nextId + k] == Message(found[k], "inbox", blob, false, false, false))
  }

  lemma AddsOneFirst(s: State, t: State, user: nat, found: seq<nat>, blob: string)
    requires forall id :: id in s.messages ==> id < s.nextId
    requires AddsInbox(Inserted(s, Fresh(user, "inbox", blob)), t, found, blob)
    ensures AddsInbox(s, t, [user] + found, blob)
  {
    var s1, all := Inserted(s, Fresh(user, "inbox", blob)), [user] + found;
    forall k | 0 <= k < |all|
      ensures t.messages[s.nextId + k] == Message(all[k], "inbox", blob, false, false, false)
    {
      if k > 0 {
        assert all[k] == found[k - 1] && s.nextId + k == s1.nextId + (k - 1);
      } else {
        assert s.nextId in s1.messages;
      }
    }
  }

  lemma {:induction false} InsertionIsExact(s: State, users: seq<Option<nat>>, blob: string)
    requires forall id :: id in s.messages ==> id < s.nextId
    ensures AddsInbox(s, InsertedForAll(s, users, "inbox", blob), Found(users, s.users), blob)
    decreases |users|
  {
    if users != [] {
      hide Found, AddsInbox;
      FoundFirst(users, s.users);
      if users[0].Some? && users[0].value in s.users {
        var s1 := Inserted(s, Fresh(users[0].value, "inbox", blob));
        InsertionIsExact(s1, users[1..], blob);
        var t := InsertedForAll(s1, users[1..], "inbox", blob);
        AddsOneFirst(s, t, users[0].value, Found(users[1..], s.users), blob);
      } else {
        InsertionIsExact(s, users[1..], blob);
        assert [] + Found(users[1..], s.users) == Found(users[1..], s.users);
      }
    }
  }

  /** A delivery stores one blob and adds one unread inbox row per recipient whose mailbox is found, in order; nothing
    * else changes. */
  lemma DeliveredIsExact(hash: string -> string, s: State, data: string, users: seq<Option<nat>>)
    requires Referential(s)
    ensures var t, found := Delivered(hash, s, data, users), Found(users, s.users);
      && t == s.(files := Written(hash, s.files, data), messages := t.messages, nextId := s.nextId + |found|)
      && (forall id :: id in t.messages <==> id in s.messages || s.nextId <= id < s.nextId + |found|)
      && (forall id :: id in s.messages ==> t.messages[id] == s.messages[id])
      && (forall k :: 0 <= k < |found| ==>
            t.messages[s.nextId + k] == Message(found[k], "inbox", hash(data), false, false, false))
  {
    hide Written;
    InsertionIsExact(s.(files := Written(hash, s.files, data)), users, hash(data));
  }

  /** A bounce stores its notice, and shows it to the owner of the bounced message, if that is still there; a relayed
    * submission stores its text and one queue row with the digest. */
  lemma NoticesAreExact(hash: string -> string, s: State, message: nat, addressed: bool, data: string)
    ensures BounceStored(hash, s, message, addressed, data) ==
      (if message in s.messages && addressed then
        s.(files := Written(hash, s.files, data),
           messages := s.messages[s.nextId :=
             Message(s.messages[message].user, "bounced", hash(data), false, false, false)],
           nextId := s.nextId + 1)
       else s.(files := Written(hash, s.files, data)))
    ensures RelaySubmitted(hash, s, data) ==
      s.(files := Written(hash, s.files, data), queue := s.queue[s.nextId := QueueRow(None, Some(hash(data)))],
         nextId := s.nextId + 1)
  {
    hide Written;
  }

  /** The file of the digest holds the text if it did not exist before, and no other file changes, save for a temporary
    * one left over. */
  lemma WrittenIsExact(hash: string -> string, files: map<string, string>, data: string)
    requires HashOk(hash)
    ensures var path, after := BlobPath(hash(data)), Written(hash, files, data);
      && path in after && after[path] == (if path in files then files[path] else data)
      && (forall p :: p in files && p != path && p != path + ".tmp" ==> p in after && after[p] == files[p])
      && (forall p :: p in after && p != path ==> p in files && after[p] == files[p])
      && (path !in files ==> path + ".tmp" !in after)
  {
    PathsAreDistinct(hash(data), hash(data));
  }

  // ---------------------------------------------------------------- changing and deleting one message

  /** Only the owner changes a message, and only the fields named in a request with a valid folder; being in the trash
    * and being marked deleted go together. */
  lemma PatchIsExact(s: State, user: nat, id: nat, p: Patch)
    ensures var (t, reply) := Patched(s, user, id, p);
      && t == s.(messages := t.messages) && t.messages.Keys == s.messages.Keys
      && (forall x :: x in s.messages && x != id ==> t.messages[x] == s.messages[x])
      && (reply == InvalidFolder <==>
            p.folder.Some? && p.folder.value !in {"inbox", "sent", "drafts", "trash", "bounced"})
      && (reply == NothingToUpdate <==> p.folder.None? && p.isRead.None? && p.isStarred.None?)
      && (reply == Updated ==> id in s.messages && s.messages[id].user == user)
      && (reply == NotFound ==> !(id in s.messages && s.messages[id].user == user))
      && reply in {InvalidFolder, NothingToUpdate, Updated, NotFound}
      && (reply != Updated ==> t == s)
      && (reply == Updated ==>
            var was, now := s.messages[id], t.messages[id];
            && now.user == was.user && now.blob == was.blob
            && now.isRead == (if p.isRead.Some? then p.isRead.value else was.isRead)
            && now.isStarred == (if p.isStarred.Some? then p.isStarred.value else was.isStarred)
            && now.folder == (if p.folder.Some? then p.folder.value else was.folder)
            && now.deleted == (if p.folder.Some? then now.folder == "trash" else was.deleted))
  {}

  lemma AnotherHas(messages: map<nat, Message>, id: nat, blob: string)
    ensures SomeMessageHas(messages - {id}, blob) <==> exists m :: m in messages && m != id && messages[m].blob == blob
  {
    var fewer := messages - {id};
    if SomeMessageHas(fewer, blob) {
      var m :| m in fewer && fewer[m].blob == blob;
      assert m in messages && m != id && messages[m].blob == blob;
    }
    if m :| m in messages && m != id && messages[m].blob == blob {
      assert m in fewer && fewer[m].blob == blob;
    }
  }

  /** Deleting moves a message of one's own to the trash, once; deleting for good removes one that is there, with its
    * queue rows, and its blob if no message is left that has it. Nothing else changes, and every other request is
    * refused. */
  lemma DeletionIsExactFor(s: State, user: nat, id: nat)
    ensures var own := id in s.messages && s.messages[id].user == user;
      && Trashed(s, user, id) ==
         (if own && s.messages[id].folder != "trash" then
            (s.(messages := s.messages[id := s.messages[id].(folder := "trash", deleted := true)]), Updated)
          else (s, NotFound))
      && var (t, reply) := DeletedForGood(s, user, id);
         && (reply == NotFound <==> !own)
         && (reply == NotInTrash <==> own && s.messages[id].folder != "trash")
         && (reply == Updated <==> own && s.messages[id].folder == "trash")
         && (reply != Updated ==> t == s)
         && (reply == Updated ==>
               && t == s.(files := t.files, messages := s.messages - {id}, queue := t.queue)
               && (forall q :: q in t.queue <==> q in s.queue && s.queue[q].message != Some(id))
               && (forall q :: q in t.queue ==> t.queue[q] == s.queue[q])
               && t.files == if exists m :: m in s.messages && m != id && s.messages[m].blob == s.messages[id].blob
                             then s.files else s.files - {BlobPath(s.messages[id].blob)})
  {
    hide BlobPath, SomeMessageHas;
    if id in s.messages {
      AnotherHas(s.messages, id, s.messages[id].blob);
    }
  }

  /** Deleting an account: what is left is, unchanged, what belonged to others; a domain that stays loses its owner if
    * that was the account deleted, and keeps everything else. */
  lemma RemovalIsExact(s: State, user: nat)
    requires Referential(s)
    ensures var t := UserDeleted(s, user);
      && t.users == s.users - {user} && t.nextId == s.nextId
      && (forall id :: id in t.messages <==> id in s.messages && s.messages[id].user != user)
      && (forall id :: id in t.messages ==> t.messages[id] == s.messages[id])
      && (forall q :: q in t.queue <==>
            (q in s.queue && (s.queue[q].message.None? || s.messages[s.queue[q].message.value].user != user)))
      && (forall q :: q in t.queue ==> t.queue[q] == s.queue[q])
      && (forall a :: a in t.addresses <==> a in s.addresses && s.addresses[a].user != user)
      && (forall a :: a in t.addresses ==> t.addresses[a] == s.addresses[a])
      && (forall d :: d in t.domains ==>
            && d in s.domains && t.domains[d].isPrimary == s.domains[d].isPrimary
            && t.domains[d].owner == if s.domains[d].owner == Some(user) then None else s.domains[d].owner)
      && (forall p :: p in t.files ==> p in s.files && t.files[p] == s.files[p])
  {
    hide ExclusiveDomains, ExclusiveBlobs, Paths;
  }

  /** A new account is there afterwards; so is a new domain with no owner or an existing one, and a new address of an
    * existing account in an existing domain. Nothing else changes. */
  lemma AdditionsTakeEffect(hash: string -> string, s: State, id: nat, user: nat, domain: nat, flag: bool)
    ensures Step(hash, s, NewUser(user)) == s.(users := s.users + {user})
    ensures id !in s.domains ==>
              Step(hash, s, NewDomain(id, None, flag)) == s.(domains := s.domains[id := Domain(None, flag)])
              && (user in s.users ==> Step(hash, s, NewDomain(id, Some(user), flag)) ==
                                      s.(domains := s.domains[id := Domain(Some(user), flag)]))
    ensures id !in s.addresses && user in s.users && domain in s.domains ==>
              Step(hash, s, NewAddress(id, user, domain, flag)) ==
              s.(addresses := s.addresses[id := Address(user, domain, flag)])
  {}
}
