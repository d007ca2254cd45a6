/** What every run of the mail store's operations keeps, and what each deletion removes. */
module MailStoreRuns {
  import opened Wrappers
  import opened MailStore

  datatype Event =
    | NewUser(user: nat)
    | NewDomain(domain: nat, owner: Option<nat>, isPrimary: bool)
    | NewAddress(address: nat, user: nat, domain: nat, direct: bool)
    | RemoveDomain(user: nat, domain: nat)
    | Deliver(data: string, recipients: seq<Option<nat>>)
    | Send(user: nat, data: string, copies: nat)
    | Bounce(message: nat, addressed: bool, data: string)
    | Relay(data: string)
    | MoveToTrash(user: nat, id: nat)
    | Change(user: nat, id: nat, patch: Patch)
    | DeletePermanently(user: nat, id: nat)
    | RemoveUser(user: nat)

  function Step(hash: string -> string, s: State, e: Event): State {
    match e
    case NewUser(user) => s.(users := s.users + {user})
    case NewDomain(domain, owner, isPrimary) =>
      if domain in s.domains || (owner.Some? && owner.value !in s.users) then s
      else s.(domains := s.domains[domain := Domain(owner, isPrimary)])
    case NewAddress(address, user, domain, direct) =>
      if address in s.addresses || user !in s.users || domain !in s.domains then s
      else s.(addresses := s.addresses[address := Address(user, domain, direct)])
    case RemoveDomain(user, domain) => DomainRemoved(s, user, domain).0
    case Deliver(data, recipients) => Delivered(hash, s, data, recipients)
    case Send(user, data, copies) => Sent(hash, s, user, data, copies)
    case Bounce(message, addressed, data) => BounceStored(hash, s, message, addressed, data)
    case Relay(data) => RelaySubmitted(hash, s, data)
    case MoveToTrash(user, id) => Trashed(s, user, id).0
    case Change(user, id, patch) => Patched(s, user, id, patch).0
    case DeletePermanently(user, id) => DeletedForGood(s, user, id).0
    case RemoveUser(user) => if user in s.users then UserDeleted(s, user) else s
  }

  function Run(hash: string -> string, s: State, es: seq<Event>): State
    decreases |es|
  {
    if es == [] then s else Run(hash, Step(hash, s, es[0]), es[1..])
  }

  const EMPTY := State(map[], map[], map[], {}, map[], map[], 0)

  // ---------------------------------------------------------------- files

  /** A write adds its own digest, and nothing else changes for any digest. */
  lemma WriteAddsItsDigest(hash: string -> string, files: map<string, string>, data: string, d: string)
    requires HashOk(hash) && |d| == DIGEST_LENGTH
    ensures OnDisk(Written(hash, files, data), d) <==> OnDisk(files, d) || d == hash(data)
    ensures OnDisk(files, d) ==> Written(hash, files, data)[BlobPath(d)] == files[BlobPath(d)]
    ensures !OnDisk(files, d) && d == hash(data) ==> Written(hash, files, data)[BlobPath(d)] == data
  {
    PathsAreDistinct(d, hash(data));
  }

  lemma WriteKeepsFiles(hash: string -> string, files: map<string, string>, data: string)
    requires HashOk(hash) && FilesOk(hash, files)
    ensures FilesOk(hash, Written(hash, files, data))
  {
    hide Written, BlobPath;
    forall d: string | |d| == DIGEST_LENGTH && BlobPath(d) in Written(hash, files, data)
      ensures hash(Written(hash, files, data)[BlobPath(d)]) == d
    {
      WriteAddsItsDigest(hash, files, data, d);
    }
  }

  /** Deleting the blobs of `gone` affects no other digest. */
  lemma DeletionIsExact(files: map<string, string>, gone: set<string>, d: string)
    requires |d| == DIGEST_LENGTH && forall g :: g in gone ==> |g| == DIGEST_LENGTH
    ensures OnDisk(files - Paths(gone), d) <==> OnDisk(files, d) && d !in gone
    ensures OnDisk(files, d) && d !in gone ==> (files - Paths(gone))[BlobPath(d)] == files[BlobPath(d)]
  {
    hide BlobPath;
    forall g | g in gone ensures BlobPath(g) == BlobPath(d) ==> g == d { PathsAreDistinct(g, d); }
  }

  // ---------------------------------------------------------------- adding messages

  /** The message rows of `s` are all in `t`, and any new row is a fresh one with the digest `d`. */
  ghost predicate Extends(s: State, t: State, d: string) {
    && s.users == t.users && s.addresses == t.addresses && s.domains == t.domains && s.nextId <= t.nextId
    && (forall id :: id in s.messages ==> id in t.messages && t.messages[id] == s.messages[id])
    && (forall id :: id in t.messages && id !in s.messages ==>
          s.nextId <= id < t.nextId && t.messages[id].blob == d && t.messages[id].user in s.users
          && (t.messages[id].deleted <==> t.messages[id].folder == "trash"))
    && (forall q :: q in s.queue ==> q in t.queue && t.queue[q] == s.queue[q])
    && (forall q :: q in t.queue && q !in s.queue ==>
          s.nextId <= q < t.nextId
          && (t.queue[q].message.None? || t.queue[q].blob.None?)
          && (t.queue[q].message.Some? ==> t.queue[q].message.value in t.messages)
          && (t.queue[q].blob.Some? ==> t.queue[q].blob.value == d))
  }

  lemma ExtendsIsTransitive(s: State, t: State, u: State, d: string)
    requires Referential(s) && Extends(s, t, d) && Extends(t, u, d)
    ensures Extends(s, u, d)
  {
  }

  lemma ExtendsKeepsReferential(s: State, t: State, d: string)
    requires Referential(s) && Extends(s, t, d)
    ensures Referential(t)
  {
  }

  lemma InsertionExtends(s: State, m: Message)
    requires Referential(s) && m.user in s.users && (m.deleted <==> m.folder == "trash")
    ensures Extends(s, Inserted(s, m), m.blob) && HasNewRow(s, Inserted(s, m)) && Inserted(s, m).files == s.files
  {
    assert s.nextId in Inserted(s, m).messages;
  }

  lemma {:induction false} InsertionsExtend(s: State, users: seq<Option<nat>>, d: string)
    requires Referential(s)
    ensures Extends(s, InsertedForAll(s, users, "inbox", d), d)
    ensures InsertedForAll(s, users, "inbox", d).files == s.files
    ensures HasNewRow(s, InsertedForAll(s, users, "inbox", d)) <==> Resolves(users, s.users)
    decreases |users|
  {
    hide Referential, Extends, Resolves, HasNewRow, Inserted;
    if users == [] {
      SelfExtends(s, d);
      NobodyResolves(s.users);
    } else {
      var here := users[0].Some? && users[0].value in s.users;
      var s1 := if here then Inserted(s, Fresh(users[0].value, "inbox", d)) else s;
      SelfExtends(s, d);
      if here {
        InsertionExtends(s, Fresh(users[0].value, "inbox", d));
      }
      ExtendsKeepsReferential(s, s1, d);
      InsertionsExtend(s1, users[1..], d);
      var t := InsertedForAll(s1, users[1..], "inbox", d);
      ExtendsIsTransitive(s, s1, t, d);
      SomeoneResolves(users, s.users);
      NewRowsAddUp(s, s1, t, d);
    }
  }

  lemma SelfExtends(s: State, d: string)
    ensures Extends(s, s, d) && !HasNewRow(s, s)
  {
  }

  ghost predicate HasNewRow(s: State, t: State) {
    exists id :: id in t.messages && id !in s.messages
  }

  lemma NewRowsAddUp(s: State, s1: State, t: State, d: string)
    requires Extends(s, s1, d) && Extends(s1, t, d)
    ensures HasNewRow(s, t) <==> HasNewRow(s, s1) || HasNewRow(s1, t)
  {
    if HasNewRow(s, t) {
      var id :| id in t.messages && id !in s.messages;
      assert id in s1.messages || id !in s1.messages;
    }
    if HasNewRow(s, s1) {
      var id :| id in s1.messages && id !in s.messages;
      assert id in t.messages;
    }
    if HasNewRow(s1, t) {
      var id :| id in t.messages && id !in s1.messages;
      assert id in t.messages && id !in s.messages;
    }
  }

  ghost predicate Resolves(users: seq<Option<nat>>, known: set<nat>) {
    exists k :: 0 <= k < |users| && users[k].Some? && users[k].value in known
  }

  lemma NobodyResolves(known: set<nat>)
    ensures !Resolves([], known)
  {
  }

  lemma SomeoneResolves(users: seq<Option<nat>>, known: set<nat>)
    requires users != []
    ensures Resolves(users, known) <==> (users[0].Some? && users[0].value in known) || Resolves(users[1..], known)
  {
    if Resolves(users, known) {
      var k :| 0 <= k < |users| && users[k].Some? && users[k].value in known;
      assert k > 0 ==> users[1..][k - 1] == users[k];
    }
    if Resolves(users[1..], known) {
      var k :| 0 <= k < |users[1..]| && users[1..][k].Some? && users[1..][k].value in known;
      assert users[k + 1] == users[1..][k];
    }
  }

  lemma OneQueueRowExtends(s: State, message: nat, d: string)
    requires Referential(s) && message in s.messages
    ensures Extends(s, s.(queue := s.queue[s.nextId := QueueRow(Some(message), None)], nextId := s.nextId + 1), d)
  {
  }

  lemma {:induction false} QueueingExtends(s: State, message: nat, copies: nat, d: string)
    requires Referential(s) && message in s.messages
    ensures Extends(s, QueuedFor(s, message, copies), d)
    ensures QueuedFor(s, message, copies).files == s.files && QueuedFor(s, message, copies).messages == s.messages
    decreases copies
  {
    hide Extends, Referential;
    SelfExtends(s, d);
    if copies > 0 {
      var s1 := s.(queue := s.queue[s.nextId := QueueRow(Some(message), None)], nextId := s.nextId + 1);
      OneQueueRowExtends(s, message, d);
      ExtendsKeepsReferential(s, s1, d);
      QueueingExtends(s1, message, copies - 1, d);
      ExtendsIsTransitive(s, s1, QueuedFor(s1, message, copies - 1), d);
    }
  }

  // ---------------------------------------------------------------- the three shapes of a step

  ghost predicate Adds(hash: string -> string, s: State, t: State, data: string) {
    t.files == Written(hash, s.files, data) && Extends(s, t, hash(data))
  }

  /** Rows keep their owner and their blob. */
  ghost predicate SameMail(s: State, t: State) {
    && t.files == s.files && t.nextId == s.nextId && t.queue == s.queue
    && t.messages.Keys == s.messages.Keys
    && (forall id :: id in s.messages ==>
          t.messages[id].user == s.messages[id].user && t.messages[id].blob == s.messages[id].blob)
  }

  /** Rows disappear, and with them exactly the blobs nobody needs any more. */
  ghost predicate Removes(s: State, t: State, gone: set<string>) {
    && t.files == s.files - Paths(gone) && t.nextId == s.nextId
    && (forall id :: id in t.messages ==> id in s.messages && t.messages[id] == s.messages[id])
    && (forall q :: q in t.queue ==> q in s.queue && t.queue[q] == s.queue[q])
    && (forall d :: d in gone <==> Referenced(s, d) && !Referenced(t, d))
  }

  /** What the event stores as a blob, if anything. */
  function Stored(s: State, e: Event): Option<string> {
    match e
    case Deliver(data, _) => Some(data)
    case Send(user, data, _) => if user in s.users then Some(data) else None
    case Bounce(_, _, data) => Some(data)
    case Relay(data) => Some(data)
    case _ => None
  }

  /** Whether a message row will refer to what the event stores. */
  ghost predicate Wanted(s: State, e: Event) {
    match e
    case Deliver(_, recipients) => Resolves(recipients, s.users)
    case Send(user, _, _) => user in s.users
    case Bounce(message, addressed, _) => message in s.messages && addressed
    case _ => false
  }

  lemma StoringStepAdds(hash: string -> string, s: State, e: Event)
    requires Referential(s) && Stored(s, e).Some?
    ensures Adds(hash, s, Step(hash, s, e), Stored(s, e).value)
    ensures HasNewRow(s, Step(hash, s, e)) <==> Wanted(s, e)
  {
    hide Written, Extends, HasNewRow, Resolves, Inserted, InsertedForAll, QueuedFor;
    var data := Stored(s, e).value;
    var d := hash(data);
    var s0 := s.(files := Written(hash, s.files, data));
    FilesDoNotMatter(s, s0);
    match e {
      case Deliver(_, recipients) =>
        InsertionsExtend(s0, recipients, d);
        ShiftExtends(s, s0, Step(hash, s, e), d);
      case Send(user, _, copies) =>
        var m := Fresh(user, "sent", d).(isRead := true);
        var s1 := Inserted(s0, m);
        InsertionExtends(s0, m);
        ExtendsKeepsReferential(s0, s1, d);
        assert s.nextId in s1.messages by { InsertedIsThere(s0, m); }
        QueueingExtends(s1, s.nextId, copies, d);
        var t := QueuedFor(s1, s.nextId, copies);
        NewRowsAddUp(s0, s1, t, d);
        ExtendsIsTransitive(s0, s1, t, d);
        ShiftExtends(s, s0, t, d);
      case Bounce(message, addressed, _) =>
        SelfExtends(s0, d);
        if message in s.messages && addressed {
          InsertionExtends(s0, Fresh(s.messages[message].user, "bounced", d));
        }
        ShiftExtends(s, s0, Step(hash, s, e), d);
      case Relay(_) =>
        RelayExtends(hash, s, data);
      case _ =>
    }
  }

  lemma InsertedIsThere(s: State, m: Message)
    ensures s.nextId in Inserted(s, m).messages
  {
  }

  lemma RelayExtends(hash: string -> string, s: State, data: string)
    ensures Extends(s, RelaySubmitted(hash, s, data), hash(data)) || s.nextId in s.queue
    ensures !HasNewRow(s, RelaySubmitted(hash, s, data))
  {
    hide Written;
  }

  lemma FilesDoNotMatter(s: State, s0: State)
    requires s0 == s.(files := s0.files)
    ensures Referential(s) ==> Referential(s0) && s.nextId !in s.queue
  {
  }

  lemma ShiftExtends(s: State, s0: State, t: State, d: string)
    requires s0 == s.(files := s0.files)
    ensures Extends(s0, t, d) ==> Extends(s, t, d)
    ensures HasNewRow(s0, t) <==> HasNewRow(s, t)
  {
  }

  /** Digests the event stops needing. */
  function Gone(s: State, e: Event): set<string> {
    match e
    case DeletePermanently(user, id) =>
      if Owns(s, user, id) && s.messages[id].folder == "trash"
         && !SomeMessageHas(WithoutMessage(s, id).messages, s.messages[id].blob)
      then {s.messages[id].blob} else {}
    case RemoveUser(user) => if user in s.users then ExclusiveBlobs(s, user) else {}
    case _ => {}
  }

  lemma DeletionRemoves(hash: string -> string, s: State, user: nat, id: nat)
    ensures Removes(s, DeletedForGood(s, user, id).0, Gone(s, DeletePermanently(user, id)))
  {
    hide BlobPath, Paths, Removes, SomeMessageHas;
    var t := DeletedForGood(s, user, id).0;
    if Owns(s, user, id) && s.messages[id].folder == "trash" {
      DeletingOne(s, id);
    } else {
      NothingRemoved(s);
    }
  }

  lemma DeletingOne(s: State, id: nat)
    requires id in s.messages
    ensures var s1, blob := WithoutMessage(s, id), s.messages[id].blob;
            if SomeMessageHas(s1.messages, blob) then Removes(s, s1, {})
            else Removes(s, s1.(files := s1.files - {BlobPath(blob)}), {blob})
  {
    hide BlobPath;
    var s1, blob := WithoutMessage(s, id), s.messages[id].blob;
    assert Paths({blob}) == {BlobPath(blob)};
    assert Paths({}) == {};
    assert s.files - {} == s.files;
    assert Referenced(s, blob);
    forall d ensures Referenced(s1, d) <==> Referenced(s, d) && (d == blob ==> SomeMessageHas(s1.messages, blob)) {
      if Referenced(s, d) && d != blob {
        var k :| k in s.messages && s.messages[k].blob == d;
        assert k in s1.messages && s1.messages[k].blob == d;
      }
      if Referenced(s1, d) {
        var k :| k in s1.messages && s1.messages[k].blob == d;
        assert k in s.messages && s.messages[k].blob == d;
      }
    }
  }

  lemma UserDeletionRemoves(s: State, user: nat)
    ensures Removes(s, UserDeleted(s, user), ExclusiveBlobs(s, user))
  {
    hide BlobPath, Paths, ExclusiveDomains;
    var t, gone := UserDeleted(s, user), ExclusiveBlobs(s, user);
    forall m | m in s.messages && s.messages[m].user != user ensures Referenced(t, s.messages[m].blob) {
      assert m in t.messages && t.messages[m].blob == s.messages[m].blob;
    }
    forall d ensures d in gone <==> Referenced(s, d) && !Referenced(t, d) {
      if d in gone {
        var id :| id in s.messages && s.messages[id].user == user && s.messages[id].blob == d
          && !(exists m :: m in s.messages && s.messages[m].blob == s.messages[id].blob && s.messages[m].user != user);
        assert Referenced(s, d);
      }
      if Referenced(t, d) {
        var k :| k in t.messages && t.messages[k].blob == d;
        assert k in s.messages && s.messages[k].user != user && s.messages[k].blob == d;
      } else if Referenced(s, d) {
        var k :| k in s.messages && s.messages[k].blob == d;
        assert k !in t.messages;
      }
    }
  }

  lemma RemovingStepRemoves(hash: string -> string, s: State, e: Event)
    requires e.DeletePermanently? || e.RemoveUser?
    ensures Removes(s, Step(hash, s, e), Gone(s, e))
  {
    hide DeletedForGood, UserDeleted, Removes, ExclusiveBlobs;
    match e {
      case DeletePermanently(user, id) => DeletionRemoves(hash, s, user, id);
      case RemoveUser(user) =>
        if user in s.users {
          UserDeletionRemoves(s, user);
        } else {
          NothingRemoved(s);
        }
      case _ =>
    }
  }

  lemma NothingRemoved(s: State)
    ensures Removes(s, s, {})
  {
    assert Paths({}) == {};
    assert s.files - {} == s.files;
  }

  lemma OtherStepsKeepMail(hash: string -> string, s: State, e: Event)
    requires Stored(s, e).None? && !e.DeletePermanently? && !e.RemoveUser?
    ensures SameMail(s, Step(hash, s, e))
  {
    hide Delivered, BounceStored, RelaySubmitted, DeletedForGood, UserDeleted, Trashed, Patched, SameMail;
    match e {
      case MoveToTrash(user, id) => TrashKeepsMail(s, user, id);
      case Change(user, id, patch) => PatchKeepsMail(s, user, id, patch);
      case _ => NothingChanges(s, Step(hash, s, e));
    }
  }

  lemma NothingChanges(s: State, t: State)
    requires t == s.(users := t.users, domains := t.domains, addresses := t.addresses)
    ensures SameMail(s, t)
  {
  }

  lemma TrashKeepsMail(s: State, user: nat, id: nat)
    ensures SameMail(s, Trashed(s, user, id).0)
  {
  }

  lemma PatchKeepsMail(s: State, user: nat, id: nat, patch: Patch)
    ensures SameMail(s, Patched(s, user, id, patch).0)
  {
    hide ValidFolder;
  }

  // ---------------------------------------------------------------- what every run keeps

  lemma SafeAfterAdding(hash: string -> string, s: State, t: State, data: string)
    requires HashOk(hash) && BlobsSafe(s) && Adds(hash, s, t, data)
    ensures BlobsSafe(t)
  {
    hide Written, BlobPath;
    forall id | id in t.messages ensures OnDisk(t.files, t.messages[id].blob) {
      WriteAddsItsDigest(hash, s.files, data, t.messages[id].blob);
    }
  }

  lemma SafeAfterRemoving(hash: string -> string, s: State, t: State, gone: set<string>)
    requires FilesOk(hash, s.files) && BlobsSafe(s) && Removes(s, t, gone)
    ensures FilesOk(hash, t.files) && BlobsSafe(t)
  {
    hide BlobPath, Paths;
    GoneAreDigests(s, t, gone);
    forall id | id in t.messages ensures OnDisk(t.files, t.messages[id].blob) {
      var d := t.messages[id].blob;
      assert OnDisk(s.files, s.messages[id].blob);
      assert Referenced(t, d);
      DeletionIsExact(s.files, gone, d);
    }
    forall d: string | |d| == DIGEST_LENGTH && BlobPath(d) in t.files ensures hash(t.files[BlobPath(d)]) == d {
      DeletionIsExact(s.files, gone, d);
    }
  }

  lemma GoneAreDigests(s: State, t: State, gone: set<string>)
    requires BlobsSafe(s) && Removes(s, t, gone)
    ensures forall g :: g in gone ==> |g| == DIGEST_LENGTH
  {
    hide BlobPath, Paths;
    forall g | g in gone ensures |g| == DIGEST_LENGTH {
      assert Referenced(s, g);
      var id :| id in s.messages && s.messages[id].blob == g;
      assert OnDisk(s.files, s.messages[id].blob);
    }
  }

  /** Deletions cascade far enough that no reference dangles. */
  lemma ReferentialStep(hash: string -> string, s: State, e: Event)
    requires Referential(s)
    ensures Referential(Step(hash, s, e))
  {
    hide UserDeleted, DeletedForGood, Trashed, Patched, Delivered, BounceStored, RelaySubmitted;
    if Stored(s, e).Some? {
      hide Sent, Step, Stored, Referential;
      StoringStepAdds(hash, s, e);
      ExtendsKeepsReferential(s, Step(hash, s, e), hash(Stored(s, e).value));
    } else {
      match e {
        case RemoveUser(user) => CascadeKeepsReferential(s, user);
        case DeletePermanently(user, id) => DeletionKeepsReferential(s, user, id);
        case MoveToTrash(user, id) => MailboxChangeKeepsReferential(hash, s, e);
        case Change(user, id, patch) => MailboxChangeKeepsReferential(hash, s, e);
        case _ =>
      }
    }
  }

  lemma DeletionKeepsReferential(s: State, user: nat, id: nat)
    requires Referential(s)
    ensures Referential(DeletedForGood(s, user, id).0)
  {
    hide BlobPath, SomeMessageHas;
  }

  lemma MailboxChangeKeepsReferential(hash: string -> string, s: State, e: Event)
    requires Referential(s) && (e.MoveToTrash? || e.Change?)
    ensures Referential(Step(hash, s, e))
  {
    hide ValidFolder;
  }

  lemma CascadeKeepsReferential(s: State, user: nat)
    requires Referential(s)
    ensures Referential(UserDeleted(s, user))
  {
    hide Paths, BlobPath, ExclusiveBlobs;
    var t := UserDeleted(s, user);
    forall a | a in t.addresses ensures t.addresses[a].user in t.users && t.addresses[a].domain in t.domains {
      assert a in s.addresses && s.addresses[a].user != user;
      assert s.addresses[a].domain !in ExclusiveDomains(s, user);
    }
  }

  lemma TrashIsMarkedStep(hash: string -> string, s: State, e: Event)
    requires Referential(s) && TrashIsMarked(s)
    ensures TrashIsMarked(Step(hash, s, e))
  {
    hide Paths, BlobPath, Written, ValidFolder, SomeMessageHas, ExclusiveBlobs, ExclusiveDomains;
    hide Delivered, BounceStored, RelaySubmitted;
    if Stored(s, e).Some? {
      hide Sent, Step, Stored, Referential;
      StoringStepAdds(hash, s, e);
      hide Adds;
    } else if e.DeletePermanently? || e.RemoveUser? {
      hide Step, Referential;
      RemovingStepRemoves(hash, s, e);
    } else {
      hide DeletedForGood, UserDeleted, Referential;
    }
  }

  lemma StepKeeps(hash: string -> string, s: State, e: Event)
    requires HashOk(hash) && Inv(hash, s)
    ensures Inv(hash, Step(hash, s, e))
  {
    ReferentialStep(hash, s, e);
    TrashIsMarkedStep(hash, s, e);
    var t := Step(hash, s, e);
    if Stored(s, e).Some? {
      StoringStepAdds(hash, s, e);
      hide Step, Stored, Referential, TrashIsMarked, HasNewRow, Wanted;
      var data := Stored(s, e).value;
      SafeAfterAdding(hash, s, t, data);
      WriteKeepsFiles(hash, s.files, data);
    } else if e.DeletePermanently? || e.RemoveUser? {
      RemovingStepRemoves(hash, s, e);
      hide Step, Stored, Referential, TrashIsMarked, Gone, Removes;
      SafeAfterRemoving(hash, s, t, Gone(s, e));
    } else {
      OtherStepsKeepMail(hash, s, e);
      hide Step, Stored, Referential, TrashIsMarked;
    }
  }

  /** Over every run from an empty server: all blobs are intact and present, and nothing dangles. */
  lemma {:induction false} RunKeeps(hash: string -> string, s: State, es: seq<Event>)
    requires HashOk(hash) && Inv(hash, s)
    ensures Inv(hash, Run(hash, s, es))
    decreases |es|
  {
    if es != [] {
      hide Step, Inv;
      StepKeeps(hash, s, es[0]);
      RunKeeps(hash, Step(hash, s, es[0]), es[1..]);
    }
  }

  lemma EveryMessageIsReadable(hash: string -> string, es: seq<Event>)
    requires HashOk(hash)
    ensures var s := Run(hash, EMPTY, es);
            forall id :: id in s.messages ==>
              && BlobPath(s.messages[id].blob) in s.files
              && hash(s.files[BlobPath(s.messages[id].blob)]) == s.messages[id].blob
  {
    hide Step, Run, BlobPath;
    RunKeeps(hash, EMPTY, es);
    var s := Run(hash, EMPTY, es);
    forall id | id in s.messages
      ensures BlobPath(s.messages[id].blob) in s.files
      ensures hash(s.files[BlobPath(s.messages[id].blob)]) == s.messages[id].blob
    {
      assert OnDisk(s.files, s.messages[id].blob);
    }
  }

  // ---------------------------------------------------------------- exactly when a blob comes and goes

  /** A step removes a blob if and only if the step removes the last message that refers to it. */
  lemma BlobGoesWithItsLastMessage(hash: string -> string, s: State, e: Event, d: string)
    requires HashOk(hash) && Inv(hash, s) && OnDisk(s.files, d)
    ensures !OnDisk(Step(hash, s, e).files, d) <==> Referenced(s, d) && !Referenced(Step(hash, s, e), d)
  {
    hide BlobPath, Written, TrashIsMarked, Paths;
    var t := Step(hash, s, e);
    if Stored(s, e).Some? {
      StoringStepAdds(hash, s, e);
      hide Step, Stored, Referential, Wanted;
      WriteAddsItsDigest(hash, s.files, Stored(s, e).value, d);
      if Referenced(s, d) {
        var id :| id in s.messages && s.messages[id].blob == d;
        assert id in t.messages && t.messages[id].blob == d;
      }
    } else if e.DeletePermanently? || e.RemoveUser? {
      RemovingStepRemoves(hash, s, e);
      hide Step, Stored, Referential, Gone;
      GoneAreDigests(s, t, Gone(s, e));
      DeletionIsExact(s.files, Gone(s, e), d);
    } else {
      OtherStepsKeepMail(hash, s, e);
      hide Step, Stored, Referential;
      if Referenced(s, d) {
        var id :| id in s.messages && s.messages[id].blob == d;
        assert id in t.messages && t.messages[id].blob == d;
      }
    }
  }

  /** The only blobs no message refers to are those stored for nobody: relayed submissions, deliveries none of
    * whose recipients resolves any more, and notices about messages that are gone. */
  lemma OrphansAreStoredForNobody(hash: string -> string, s: State, e: Event, d: string)
    requires HashOk(hash) && Inv(hash, s) && !Orphan(s, d)
    ensures Orphan(Step(hash, s, e), d) <==>
            Stored(s, e).Some? && hash(Stored(s, e).value) == d && !Wanted(s, e) && !Referenced(s, d)
  {
    hide BlobPath, Written, TrashIsMarked, Paths, Referential;
    var t := Step(hash, s, e);
    if |d| != DIGEST_LENGTH {
      hide Step, Stored, Wanted;
    } else if Stored(s, e).Some? {
      StoringStepAdds(hash, s, e);
      hide Step, Wanted;
      WriteAddsItsDigest(hash, s.files, Stored(s, e).value, d);
      hide Stored;
      ReferencedAfterAdding(hash, s, t, Stored(s, e).value, d);
    } else if e.DeletePermanently? || e.RemoveUser? {
      RemovingStepRemoves(hash, s, e);
      hide Step, Stored, Gone, Wanted;
      GoneAreDigests(s, t, Gone(s, e));
      DeletionIsExact(s.files, Gone(s, e), d);
    } else {
      OtherStepsKeepMail(hash, s, e);
      hide Step, Stored, Wanted;
      if Referenced(s, d) {
        var id :| id in s.messages && s.messages[id].blob == d;
        assert id in t.messages && t.messages[id].blob == d;
      }
    }
  }

  lemma ReferencedAfterAdding(hash: string -> string, s: State, t: State, data: string, d: string)
    requires Adds(hash, s, t, data)
    ensures Referenced(t, d) <==> Referenced(s, d) || (d == hash(data) && HasNewRow(s, t))
  {
    hide Written;
    if Referenced(s, d) {
      var id :| id in s.messages && s.messages[id].blob == d;
      assert id in t.messages && t.messages[id].blob == d;
    }
    if HasNewRow(s, t) {
      var id :| id in t.messages && id !in s.messages;
      assert t.messages[id].blob == hash(data);
    }
    if Referenced(t, d) {
      var id :| id in t.messages && t.messages[id].blob == d;
      assert id in s.messages ==> s.messages[id].blob == d;
    }
  }

  // ---------------------------------------------------------------- what nobody can change

  /** Message `id` is the same mail in both states: same owner, same digest, same bytes. */
  ghost predicate SameContents(s: State, t: State, id: nat) {
    && id in s.messages && id in t.messages
    && t.messages[id].user == s.messages[id].user && t.messages[id].blob == s.messages[id].blob
    && BlobPath(s.messages[id].blob) in s.files && BlobPath(s.messages[id].blob) in t.files
    && t.files[BlobPath(s.messages[id].blob)] == s.files[BlobPath(s.messages[id].blob)]
  }

  lemma StepKeepsContents(hash: string -> string, s: State, e: Event, id: nat)
    requires HashOk(hash) && Inv(hash, s)
    requires id < s.nextId && id in Step(hash, s, e).messages
    ensures SameContents(s, Step(hash, s, e), id)
  {
    hide BlobPath, Written, TrashIsMarked, Paths;
    StepKeeps(hash, s, e);
    var t := Step(hash, s, e);
    if Stored(s, e).Some? {
      StoringStepAdds(hash, s, e);
      hide Step, Stored, Referential, Wanted;
      WriteAddsItsDigest(hash, s.files, Stored(s, e).value, t.messages[id].blob);
      assert id in s.messages;
    } else if e.DeletePermanently? || e.RemoveUser? {
      RemovingStepRemoves(hash, s, e);
      hide Step, Stored, Referential, Gone;
      GoneAreDigests(s, t, Gone(s, e));
      assert Referenced(t, t.messages[id].blob);
      DeletionIsExact(s.files, Gone(s, e), t.messages[id].blob);
    } else {
      OtherStepsKeepMail(hash, s, e);
      hide Step, Stored, Referential;
    }
    assert OnDisk(s.files, s.messages[id].blob);
  }

  lemma NextIdGrows(hash: string -> string, s: State, e: Event)
    requires HashOk(hash) && Inv(hash, s)
    ensures s.nextId <= Step(hash, s, e).nextId
  {
    if Stored(s, e).Some? {
      StoringStepAdds(hash, s, e);
    } else if e.DeletePermanently? || e.RemoveUser? {
      RemovingStepRemoves(hash, s, e);
    } else {
      OtherStepsKeepMail(hash, s, e);
    }
  }

  /** Message ids are not reused. */
  lemma {:induction false} NotReused(hash: string -> string, s: State, es: seq<Event>, id: nat)
    requires HashOk(hash) && Inv(hash, s) && id < s.nextId && id in Run(hash, s, es).messages
    ensures id in s.messages
    decreases |es|
  {
    hide Step, Inv, SameContents;
    if es != [] {
      StepKeeps(hash, s, es[0]);
      NextIdGrows(hash, s, es[0]);
      NotReused(hash, Step(hash, s, es[0]), es[1..], id);
      StepKeepsContents(hash, s, es[0], id);
      SameContentsInBoth(s, Step(hash, s, es[0]), id);
    }
  }

  lemma SameContentsInBoth(s: State, t: State, id: nat)
    requires SameContents(s, t, id)
    ensures id in s.messages && id in t.messages
  {
  }

  lemma SameContentsChains(s: State, t: State, u: State, id: nat)
    requires SameContents(s, t, id) && SameContents(t, u, id)
    ensures SameContents(s, u, id)
  {
    hide BlobPath;
  }

  lemma SameContentsStart(hash: string -> string, s: State, id: nat)
    requires Inv(hash, s) && id in s.messages
    ensures id < s.nextId && SameContents(s, s, id)
  {
    hide BlobPath;
    assert OnDisk(s.files, s.messages[id].blob);
  }

  /** Whatever anyone does, a message that is still there has the owner and the bytes it had at any earlier time:
    * its blob was never removed and stored anew, so this does not depend on the digest being free of collisions. */
  lemma {:induction false} MailNeverChanges(hash: string -> string, s: State, es: seq<Event>, id: nat)
    requires HashOk(hash) && Inv(hash, s) && id in s.messages && id in Run(hash, s, es).messages
    ensures SameContents(s, Run(hash, s, es), id)
    decreases |es|
  {
    hide Step, Inv, SameContents;
    SameContentsStart(hash, s, id);
    if es != [] {
      var s1 := Step(hash, s, es[0]);
      StepKeeps(hash, s, es[0]);
      NextIdGrows(hash, s, es[0]);
      NotReused(hash, s1, es[1..], id);
      StepKeepsContents(hash, s, es[0], id);
      MailNeverChanges(hash, s1, es[1..], id);
      SameContentsChains(s, s1, Run(hash, s1, es[1..]), id);
    }
  }

  // ---------------------------------------------------------------- deleting a user

  /** Which row stays, which blob, which domain: nothing of anyone else's goes, and nothing is left over. */
  lemma DeleteUserIsExact(hash: string -> string, s: State, user: nat)
    requires HashOk(hash) && Inv(hash, s)
    ensures var t := UserDeleted(s, user);
      && (forall id :: id in s.messages ==>
            if s.messages[id].user == user then id !in t.messages
            else SameContents(s, t, id) && t.messages[id] == s.messages[id])
      && (forall d :: OnDisk(s.files, d) ==>
            (!OnDisk(t.files, d) <==>
              (exists id :: id in s.messages && s.messages[id].blob == d)
              && (forall id :: id in s.messages && s.messages[id].blob == d ==> s.messages[id].user == user)))
      && (forall d :: d in s.domains ==>
            (d !in t.domains <==>
              s.domains[d].owner == Some(user) && !s.domains[d].isPrimary
              && forall a :: a in s.addresses && s.addresses[a].domain == d ==> s.addresses[a].user == user))
      && (forall a :: a in s.addresses ==> (a in t.addresses <==> s.addresses[a].user != user))
      && (forall a :: a in t.addresses ==> t.addresses[a] == s.addresses[a] && t.addresses[a].domain in t.domains)
      && (forall q :: q in s.queue ==>
            (q in t.queue <==> (s.queue[q].message.Some? ==> s.messages[s.queue[q].message.value].user != user)))
  {
    hide BlobPath, Paths, ExclusiveBlobs, TrashIsMarked;
    var t := UserDeleted(s, user);
    UserDeletionRemoves(s, user);
    GoneAreDigests(s, t, ExclusiveBlobs(s, user));
    CascadeKeepsReferential(s, user);
    forall id | id in s.messages && s.messages[id].user != user ensures SameContents(s, t, id) {
      hide FilesOk, Cascaded, Referential;
      SurvivorKeepsContents(s, t, ExclusiveBlobs(s, user), id);
    }
    forall d | OnDisk(s.files, d)
      ensures !OnDisk(t.files, d) <==>
              (exists id :: id in s.messages && s.messages[id].blob == d)
              && (forall id :: id in s.messages && s.messages[id].blob == d ==> s.messages[id].user == user)
    {
      hide FilesOk, Referential, BlobsSafe, UserDeleted;
      DeletionIsExact(s.files, ExclusiveBlobs(s, user), d);
      ExclusiveMeans(s, user, d);
    }
  }

  lemma SurvivorKeepsContents(s: State, t: State, gone: set<string>, id: nat)
    requires BlobsSafe(s) && Removes(s, t, gone) && id in t.messages
    ensures id in s.messages && SameContents(s, t, id) && t.messages[id] == s.messages[id]
  {
    hide BlobPath, Paths;
    GoneAreDigests(s, t, gone);
    assert OnDisk(s.files, s.messages[id].blob);
    assert Referenced(t, t.messages[id].blob);
    DeletionIsExact(s.files, gone, t.messages[id].blob);
  }

  lemma ExclusiveMeans(s: State, user: nat, d: string)
    ensures d in ExclusiveBlobs(s, user) <==>
            (exists id :: id in s.messages && s.messages[id].blob == d)
            && (forall id :: id in s.messages && s.messages[id].blob == d ==> s.messages[id].user == user)
  {
    if (exists id :: id in s.messages && s.messages[id].blob == d)
       && (forall id :: id in s.messages && s.messages[id].blob == d ==> s.messages[id].user == user) {
      var id :| id in s.messages && s.messages[id].blob == d;
      assert s.messages[id].blob in ExclusiveBlobs(s, user);
    }
  }

  // ---------------------------------------------------------------- removing a custom domain

  /** A custom domain goes exactly when its owner asks and nothing, not even an alias, has an address on it; mail never
    * changes. The count the handler makes is not enough exactly when aliases or reserved addresses alone are left. */
  lemma RemoveDomainIsExact(hash: string -> string, s: State, user: nat, d: nat)
    requires Inv(hash, s)
    ensures var (t, reply) := DomainRemoved(s, user, d);
      && Inv(hash, t) && t == s.(domains := t.domains)
      && t.domains.Keys == s.domains.Keys - (if reply.DomainGone? then {d} else {})
      && (reply.DomainGone? <==>
            d in s.domains && s.domains[d].owner == Some(user) && !s.domains[d].isPrimary
            && forall a :: a in s.addresses ==> s.addresses[a].domain != d)
      && (reply.StillReferred? <==>
            d in s.domains && s.domains[d].owner == Some(user) && !s.domains[d].isPrimary
            && (exists a :: a in s.addresses && s.addresses[a].domain == d)
            && forall a :: a in s.addresses && s.addresses[a].domain == d ==> !s.addresses[a].direct)
  {
    hide FilesOk, BlobsSafe, TrashIsMarked;
    SameMessagesKeep(hash, s, DomainRemoved(s, user, d).0);
  }

  lemma SameMessagesKeep(hash: string -> string, s: State, t: State)
    requires t == s.(domains := t.domains) && FilesOk(hash, s.files) && BlobsSafe(s) && TrashIsMarked(s)
    ensures FilesOk(hash, t.files) && BlobsSafe(t) && TrashIsMarked(t)
  {}

  // ---------------------------------------------------------------- relayed submissions

  /** The blob of every relayed row is on disk. */
  ghost predicate RelayedReadable(s: State) {
    forall q :: q in s.queue && s.queue[q].blob.Some? ==> OnDisk(s.files, s.queue[q].blob.value)
  }

  ghost predicate RelayedNeeds(s: State, d: string) {
    exists q :: q in s.queue && s.queue[q].blob.Some? && s.queue[q].blob.value == d
  }

  /** Relayed rows are not counted when a blob is dropped: they stay readable if and only if none of the digests
    * the deletion drops is one of theirs. */
  lemma RelayedSurvivesIff(hash: string -> string, s: State, e: Event)
    requires HashOk(hash) && Inv(hash, s) && RelayedReadable(s)
    ensures RelayedReadable(Step(hash, s, e)) <==> forall d :: d in Gone(s, e) ==> !RelayedNeeds(s, d)
  {
    hide BlobPath, Written, TrashIsMarked, Paths, Referential, FilesOk;
    var t := Step(hash, s, e);
    if Stored(s, e).Some? {
      RelayedAfterStoring(hash, s, e);
    } else if e.DeletePermanently? || e.RemoveUser? {
      RelayedAfterRemoval(hash, s, e);
    } else {
      OtherStepsKeepMail(hash, s, e);
      hide Step, Stored;
    }
  }

  lemma RelayedAfterStoring(hash: string -> string, s: State, e: Event)
    requires HashOk(hash) && Inv(hash, s) && RelayedReadable(s) && Stored(s, e).Some?
    ensures RelayedReadable(Step(hash, s, e))
  {
    hide BlobPath, Written, TrashIsMarked, Paths, FilesOk;
    StoringStepAdds(hash, s, e);
    hide Step, Stored, Wanted;
    var t, data := Step(hash, s, e), Stored(s, e).value;
    forall q | q in t.queue && t.queue[q].blob.Some? ensures OnDisk(t.files, t.queue[q].blob.value) {
      if q in s.queue {
        assert OnDisk(s.files, s.queue[q].blob.value);
        WriteAddsItsDigest(hash, s.files, data, s.queue[q].blob.value);
      } else {
        WriteAddsItsDigest(hash, s.files, data, hash(data));
      }
    }
  }

  lemma RelayedAfterRemoval(hash: string -> string, s: State, e: Event)
    requires Inv(hash, s) && RelayedReadable(s) && (e.DeletePermanently? || e.RemoveUser?)
    ensures RelayedReadable(Step(hash, s, e)) <==> forall d :: d in Gone(s, e) ==> !RelayedNeeds(s, d)
  {
    hide BlobPath, Written, TrashIsMarked, Paths, Referential, FilesOk;
    var t, gone := Step(hash, s, e), Gone(s, e);
    RemovingStepRemoves(hash, s, e);
    GoneAreDigests(s, t, gone);
    RelayedRowsStay(hash, s, e);
    hide Step, Gone;
    forall q | q in s.queue && s.queue[q].blob.Some?
      ensures OnDisk(t.files, s.queue[q].blob.value) <==> s.queue[q].blob.value !in gone
    {
      assert OnDisk(s.files, s.queue[q].blob.value);
      DeletionIsExact(s.files, gone, s.queue[q].blob.value);
    }
    if forall d :: d in gone ==> !RelayedNeeds(s, d) {
      forall q | q in t.queue && t.queue[q].blob.Some? ensures OnDisk(t.files, t.queue[q].blob.value) {
        assert RelayedNeeds(s, s.queue[q].blob.value);
      }
    } else {
      var d :| d in gone && RelayedNeeds(s, d);
      var q :| q in s.queue && s.queue[q].blob.Some? && s.queue[q].blob.value == d;
      assert q in t.queue && !OnDisk(t.files, t.queue[q].blob.value);
    }
  }

  lemma RelayedRowsStay(hash: string -> string, s: State, e: Event)
    requires Referential(s) && (e.DeletePermanently? || e.RemoveUser?)
    ensures forall q :: q in s.queue && s.queue[q].blob.Some? ==>
              q in Step(hash, s, e).queue && Step(hash, s, e).queue[q] == s.queue[q]
  {
    hide BlobPath, Paths, ExclusiveBlobs, ExclusiveDomains, SomeMessageHas;
  }

  /** It does happen: a delivered message and a relayed submission with the same bytes. */
  lemma RelayedBlobCanVanish(hash: string -> string, data: string)
    requires HashOk(hash)
    ensures var es := [NewUser(0), Deliver(data, [Some(0)]), Relay(data), MoveToTrash(0, 0), DeletePermanently(0, 0)];
            !RelayedReadable(Run(hash, EMPTY, es))
  {
    hide BlobPath;
    var d := hash(data);
    var files := Written(hash, map[], data);
    var s1 := EMPTY.(users := {0});
    assert s1 == Step(hash, EMPTY, NewUser(0));
    var s2 := s1.(files := files, messages := map[0 := Fresh(0, "inbox", d)], nextId := 1);
    assert s2 == Step(hash, s1, Deliver(data, [Some(0)])) by { assert [Some(0 as nat)][1..] == []; }
    var s3 := s2.(queue := map[1 := QueueRow(None, Some(d))], nextId := 2);
    assert s3 == Step(hash, s2, Relay(data));
    var s4 := s3.(messages := map[0 := Fresh(0, "inbox", d).(folder := "trash", deleted := true)]);
    assert s4 == Step(hash, s3, MoveToTrash(0, 0));
    var s5 := Step(hash, s4, DeletePermanently(0, 0));
    assert s4.messages - {0} == map[];
    assert s5.files == files - {BlobPath(d)} && 1 in s5.queue && s5.queue[1].blob == Some(d);
    assert !OnDisk(s5.files, d);
    RunOfFive(
      hash, EMPTY, NewUser(0), Deliver(data, [Some(0)]), Relay(data), MoveToTrash(0, 0), DeletePermanently(0, 0));
  }

  lemma RunFirst(hash: string -> string, s: State, e: Event, es: seq<Event>)
    ensures Run(hash, s, [e] + es) == Run(hash, Step(hash, s, e), es)
  {
    hide Step;
    assert ([e] + es)[1..] == es;
  }

  lemma RunOfFive(hash: string -> string, s: State, a: Event, b: Event, c: Event, d: Event, e: Event)
    ensures Run(hash, s, [a, b, c, d, e]) ==
            Step(hash, Step(hash, Step(hash, Step(hash, Step(hash, s, a), b), c), d), e)
  {
    var s1 := Step(hash, s, a);
    var s2 := Step(hash, s1, b);
    var s3 := Step(hash, s2, c);
    var s4 := Step(hash, s3, d);
    hide Step;
    RunFirst(hash, s, a, [b, c, d, e]);
    RunFirst(hash, s1, b, [c, d, e]);
    RunFirst(hash, s2, c, [d, e]);
    RunFirst(hash, s3, d, [e]);
    RunFirst(hash, s4, e, []);
    assert [a] + [b, c, d, e] == [a, b, c, d, e] && [b] + [c, d, e] == [b, c, d, e];
    assert [c] + [d, e] == [c, d, e] && [d] + [e] == [d, e] && [e] + [] == [e];
  }
}
