/** Message rows sharing content-addressed blobs, and the operations that add and remove them
  * (internal/store/store.go, internal/lifecycle/lifecycle.go, internal/web/handlers_messages.go).
  */
module MailStore {
  import opened Wrappers
  import Text
  import TextLaws

  datatype Message = Message(user: nat, folder: string, blob: string, isRead: bool, isStarred: bool, deleted: bool)

  datatype QueueRow = QueueRow(message: Option<nat>, blob: Option<string>)

  /** A direct address is neither an alias nor one of the reserved ones of a custom domain. */
  datatype Address = Address(user: nat, domain: nat, direct: bool)

  datatype Domain = Domain(owner: Option<nat>, isPrimary: bool)

  datatype State = State(
    files: map<string, string>,
    messages: map<nat, Message>,
    queue: map<nat, QueueRow>,
    users: set<nat>,
    addresses: map<nat, Address>,
    domains: map<nat, Domain>,
    nextId: nat)

  // ---------------------------------------------------------------- the blob store

  const DIGEST_LENGTH := 64

  function BlobPath(digest: string): string {
    if |digest| < 4 then "sha256/" + digest + ".eml"
    else "sha256/" + digest[..2] + "/" + digest[2..4] + "/" + digest + ".eml"
  }

  /** A full-length digest shares its file with no other name, and its temporary file with none at all. */
  lemma PathsAreDistinct(a: string, b: string)
    requires |b| == DIGEST_LENGTH
    ensures BlobPath(a) == BlobPath(b) ==> a == b
    ensures BlobPath(a) != BlobPath(b) + ".tmp"
  {
    assert |BlobPath(b)| == 81 && BlobPath(b)[13..77] == b;
    assert |BlobPath(a)| == if |a| < 4 then 11 + |a| else 17 + |a|;
    assert |a| == DIGEST_LENGTH ==> BlobPath(a)[13..77] == a;
    var tmp := BlobPath(b) + ".tmp";
    assert BlobPath(a)[|BlobPath(a)| - 1] == 'l' && tmp[|tmp| - 1] == 'p';
  }

  /** `hash` is SHA-256 in hexadecimal; nothing but its length is used. */
  ghost predicate HashOk(hash: string -> string) {
    forall data :: |hash(data)| == DIGEST_LENGTH
  }

  /** The temporary file, even one left over from a crash, is gone afterwards. */
  function Written(hash: string -> string, files: map<string, string>, data: string): map<string, string> {
    var path := BlobPath(hash(data));
    if path in files then files else (files - {path + ".tmp"})[path := data]
  }

  // ---------------------------------------------------------------- what must hold

  /** Every stored blob holds contents of its own digest. */
  ghost predicate FilesOk(hash: string -> string, files: map<string, string>) {
    forall d: string :: |d| == DIGEST_LENGTH && BlobPath(d) in files ==> hash(files[BlobPath(d)]) == d
  }

  ghost predicate OnDisk(files: map<string, string>, digest: string) {
    |digest| == DIGEST_LENGTH && BlobPath(digest) in files
  }

  /** Every message row's blob is on disk. */
  ghost predicate BlobsSafe(s: State) {
    forall id :: id in s.messages ==> OnDisk(s.files, s.messages[id].blob)
  }

  /** The foreign keys of the schema. */
  ghost predicate Referential(s: State) {
    && (forall id :: id in s.messages ==> s.messages[id].user in s.users && id < s.nextId)
    && (forall q :: q in s.queue ==> q < s.nextId && (s.queue[q].message.None? || s.queue[q].blob.None?))
    && (forall q :: q in s.queue && s.queue[q].message.Some? ==> s.queue[q].message.value in s.messages)
    && (forall a :: a in s.addresses ==> s.addresses[a].user in s.users && s.addresses[a].domain in s.domains)
    && (forall d :: d in s.domains && s.domains[d].owner.Some? ==> s.domains[d].owner.value in s.users)
  }

  /** `deleted_at` is set exactly on the messages in the trash. */
  ghost predicate TrashIsMarked(s: State) {
    forall id :: id in s.messages ==> (s.messages[id].deleted <==> s.messages[id].folder == "trash")
  }

  ghost predicate Inv(hash: string -> string, s: State) {
    FilesOk(hash, s.files) && BlobsSafe(s) && Referential(s) && TrashIsMarked(s)
  }

  ghost predicate Referenced(s: State, digest: string) {
    exists id :: id in s.messages && s.messages[id].blob == digest
  }

  /** A blob on disk that no message row needs. */
  ghost predicate Orphan(s: State, digest: string) {
    OnDisk(s.files, digest) && !Referenced(s, digest)
  }

  // ---------------------------------------------------------------- the operations

  function Fresh(user: nat, folder: string, blob: string): Message {
    Message(user, folder, blob, false, false, false)
  }

  function Inserted(s: State, m: Message): State {
    s.(messages := s.messages[s.nextId := m], nextId := s.nextId + 1)
  }

  /** One row per recipient whose mailbox was found. */
  function InsertedForAll(s: State, users: seq<Option<nat>>, folder: string, blob: string): State
    decreases |users|
  {
    if users == [] then s
    else
      var s' :=
        if users[0].Some? && users[0].value in s.users then Inserted(s, Fresh(users[0].value, folder, blob)) else s;
      InsertedForAll(s', users[1..], folder, blob)
  }

  function Delivered(hash: string -> string, s: State, data: string, users: seq<Option<nat>>): State {
    InsertedForAll(s.(files := Written(hash, s.files, data)), users, "inbox", hash(data))
  }

  function QueuedFor(s: State, message: nat, copies: nat): State
    decreases copies
  {
    if copies == 0 then s
    else
      var q := s.nextId;
      QueuedFor(s.(queue := s.queue[q := QueueRow(Some(message), None)], nextId := q + 1), message, copies - 1)
  }

  /** The addresses a message is queued for, trimmed and in lower case; blank ones are left out. */
  function Deliverable(given: seq<string>): seq<string> {
    if given == [] then []
    else
      var to := TextLaws.Normal(given[|given| - 1]);
      Deliverable(given[..|given| - 1]) + if to == "" then [] else [to]
  }

  lemma DeliverableIsEmpty()
    ensures Deliverable([]) == []
  {}

  lemma OneMoreAddress(given: seq<string>, to: string)
    ensures Deliverable(given + [to]) ==
            Deliverable(given) + if TextLaws.Normal(to) == "" then [] else [TextLaws.Normal(to)]
  {
    hide TextLaws.Normal;
    assert (given + [to])[..|given|] == given;
  }

  lemma {:induction false} DeliverableOfBoth(a: seq<string>, b: seq<string>)
    ensures Deliverable(a + b) == Deliverable(a) + Deliverable(b)
    decreases |b|
  {
    if b == [] {
      assert a + b == a;
    } else {
      hide TextLaws.Normal, Deliverable;
      var init, last := b[..|b| - 1], b[|b| - 1];
      assert b == init + [last];
      assert a + b == a + init + [last];
      DeliverableOfBoth(a, init);
      OneMoreAddress(init, last);
      OneMoreAddress(a + init, last);
    }
  }

  lemma {:induction false} DeliverableAgain(b: seq<string>)
    ensures Deliverable(Deliverable(b)) == Deliverable(b)
    decreases |b|
  {
    if b != [] {
      hide TextLaws.Normal, Deliverable;
      var init, last := b[..|b| - 1], b[|b| - 1];
      assert b == init + [last];
      DeliverableAgain(init);
      OneMoreAddress(init, last);
      var done, to := Deliverable(init), TextLaws.Normal(last);
      if to == "" {
        assert Deliverable(b) == done;
      } else {
        assert Deliverable(b) == done + [to];
        TextLaws.NormalIsIdempotent(last);
        OneMoreAddress(done, to);
      }
    }
  }

  /** Each address that is not blank, in order, without the white space around it and in lower case. */
  lemma DeliverableIsExact(given: seq<string>, before: string, to: string, after: string, more: seq<string>)
    requires TextLaws.Blank(before) && TextLaws.Trimmed(to) && TextLaws.Blank(after)
    ensures Deliverable(given + [before + to + after] + more) ==
            Deliverable(given) + (if to == "" then [] else [Text.Lower(to)]) + Deliverable(more)
    ensures Deliverable([]) == []
  {
    hide TextLaws.Normal;
    TextLaws.NormalOf(before, to, after);
    DeliverableOfBoth(given + [before + to + after], more);
    assert (given + [before + to + after])[..|given|] == given;
  }

  lemma {:induction false} QueuedOneMore(s: State, message: nat, copies: nat)
    ensures var t := QueuedFor(s, message, copies);
            QueuedFor(s, message, copies + 1) ==
            t.(queue := t.queue[t.nextId := QueueRow(Some(message), None)], nextId := t.nextId + 1)
    decreases copies
  {
    if copies > 0 {
      QueuedOneMore(s.(queue := s.queue[s.nextId := QueueRow(Some(message), None)], nextId := s.nextId + 1), message,
        copies - 1);
    }
  }

  function Sent(hash: string -> string, s: State, user: nat, data: string, copies: nat): State {
    if user !in s.users then s
    else
      var s1 := Inserted(s.(files := Written(hash, s.files, data)), Fresh(user, "sent", hash(data)).(isRead := true));
      QueuedFor(s1, s.nextId, copies)
  }

  /** The failure notice goes to the sender of the bounced message, if the message is still there and its
    * sender has a primary address (`addressed`). */
  function BounceStored(hash: string -> string, s: State, message: nat, addressed: bool, notice: string): State {
    var s1 := s.(files := Written(hash, s.files, notice));
    if message in s.messages && addressed then
      Inserted(s1, Fresh(s.messages[message].user, "bounced", hash(notice)))
    else s1
  }

  function RelaySubmitted(hash: string -> string, s: State, data: string): State {
    s.(files := Written(hash, s.files, data),
       queue := s.queue[s.nextId := QueueRow(None, Some(hash(data)))],
       nextId := s.nextId + 1)
  }

  datatype Reply = Updated | NotFound | NotInTrash | InvalidFolder | NothingToUpdate

  predicate Owns(s: State, user: nat, id: nat) {
    id in s.messages && s.messages[id].user == user
  }

  function Trashed(s: State, user: nat, id: nat): (State, Reply) {
    if Owns(s, user, id) && s.messages[id].folder != "trash" then
      (s.(messages := s.messages[id := s.messages[id].(folder := "trash", deleted := true)]), Updated)
    else (s, NotFound)
  }

  predicate ValidFolder(folder: string) {
    folder == "inbox" || folder == "sent" || folder == "drafts" || folder == "trash" || folder == "bounced"
  }

  /** The body of a patch request; an absent field stays as it is. */
  datatype Patch = Patch(isRead: Option<bool>, isStarred: Option<bool>, folder: Option<string>)

  function PatchedRow(m: Message, p: Patch): Message {
    m.(isRead := if p.isRead.Some? then p.isRead.value else m.isRead,
       isStarred := if p.isStarred.Some? then p.isStarred.value else m.isStarred,
       folder := if p.folder.Some? then p.folder.value else m.folder,
       deleted := if p.folder.Some? then p.folder.value == "trash" else m.deleted)
  }

  function Patched(s: State, user: nat, id: nat, p: Patch): (State, Reply) {
    if p.folder.Some? && !ValidFolder(p.folder.value) then (s, InvalidFolder)
    else if p == Patch(None, None, None) then (s, NothingToUpdate)
    else if !Owns(s, user, id) then (s, NotFound)
    else (s.(messages := s.messages[id := PatchedRow(s.messages[id], p)]), Updated)
  }

  function WithoutMessage(s: State, id: nat): State {
    s.(messages := s.messages - {id},
       queue := map q | q in s.queue && s.queue[q].message != Some(id) :: s.queue[q])
  }

  predicate SomeMessageHas(messages: map<nat, Message>, blob: string) {
    exists id :: id in messages && messages[id].blob == blob
  }

  function DeletedForGood(s: State, user: nat, id: nat): (State, Reply) {
    if !Owns(s, user, id) then (s, NotFound)
    else if s.messages[id].folder != "trash" then (s, NotInTrash)
    else
      var blob := s.messages[id].blob;
      var s1 := WithoutMessage(s, id);
      if SomeMessageHas(s1.messages, blob) then (s1, Updated) else (s1.(files := s1.files - {BlobPath(blob)}), Updated)
  }

  // ---------------------------------------------------------------- the UPDATE statement of a patch

  datatype Value = Flag(bool) | Text(string) | Id(nat)

  datatype Column = IsRead | IsStarred | Folder

  /** `column = $param`, or one of the two forms of `deleted_at`. */
  datatype Clause = Assign(column: Column, param: nat) | MarkDeleted | ClearDeleted

  /** `UPDATE messages SET … WHERE id = $idParam AND user_id = $userParam`. */
  datatype Update = Update(sets: seq<Clause>, idParam: nat, userParam: nat)

  /** Parameters are numbered from 1. */
  function Param(args: seq<Value>, k: nat): Option<Value> {
    if 1 <= k <= |args| then Some(args[k - 1]) else None
  }

  /** None if a parameter is missing or of the wrong type. */
  function Assigned(m: Message, c: Clause, args: seq<Value>): Option<Message> {
    match c
    case MarkDeleted => Some(m.(deleted := true))
    case ClearDeleted => Some(m.(deleted := false))
    case Assign(column, param) =>
      match (column, Param(args, param))
      case (IsRead, Some(Flag(b))) => Some(m.(isRead := b))
      case (IsStarred, Some(Flag(b))) => Some(m.(isStarred := b))
      case (Folder, Some(Text(t))) => Some(m.(folder := t))
      case _ => None
  }

  function AllAssigned(m: Message, sets: seq<Clause>, args: seq<Value>): Option<Message> {
    if sets == [] then Some(m)
    else
      var m' := AllAssigned(m, sets[..|sets| - 1], args);
      if m'.None? then None else Assigned(m'.value, sets[|sets| - 1], args)
  }

  /** Arguments added behind those a statement uses do not change what it does. */
  lemma {:induction false} LaterArgumentsDoNotMatter(m: Message, sets: seq<Clause>, args: seq<Value>, v: Value)
    requires AllAssigned(m, sets, args).Some?
    ensures AllAssigned(m, sets, args + [v]) == AllAssigned(m, sets, args)
  {
    if sets != [] {
      LaterArgumentsDoNotMatter(m, sets[..|sets| - 1], args, v);
      var c := sets[|sets| - 1];
      if c.Assign? {
        assert Param(args + [v], c.param) == Param(args, c.param);
      }
    }
  }

  lemma OneMoreClause(m: Message, sets: seq<Clause>, c: Clause, args: seq<Value>)
    ensures AllAssigned(m, sets + [c], args) ==
            if AllAssigned(m, sets, args).None? then None else Assigned(AllAssigned(m, sets, args).value, c, args)
  {
    assert (sets + [c])[..|sets + [c]| - 1] == sets;
  }

  function Executed(messages: map<nat, Message>, q: Update, args: seq<Value>): Option<map<nat, Message>> {
    match (Param(args, q.idParam), Param(args, q.userParam))
    case (Some(Id(id)), Some(Id(user))) =>
      if id !in messages || messages[id].user != user then Some(messages)
      else
        var m := AllAssigned(messages[id], q.sets, args);
        if m.None? then None else Some(messages[id := m.value])
    case _ => None
  }

  /** The clauses so far carry out the part `done` of the patch. */
  ghost predicate CarriesOut(sets: seq<Clause>, args: seq<Value>, done: Patch) {
    forall m :: AllAssigned(m, sets, args) == Some(PatchedRow(m, done))
  }

  lemma OneMoreField(sets: seq<Clause>, args: seq<Value>, done: Patch, c: Clause, v: Value, done': Patch)
    requires CarriesOut(sets, args, done)
    requires forall m :: Assigned(PatchedRow(m, done), c, args + [v]) == Some(PatchedRow(m, done'))
    ensures CarriesOut(sets + [c], args + [v], done')
  {
    hide Assigned, PatchedRow;
    forall m ensures AllAssigned(m, sets + [c], args + [v]) == Some(PatchedRow(m, done')) {
      hide AllAssigned;
      assert AllAssigned(m, sets, args) == Some(PatchedRow(m, done));
      LaterArgumentsDoNotMatter(m, sets, args, v);
      OneMoreClause(m, sets, c, args + [v]);
    }
  }

  lemma FolderAndMark(sets: seq<Clause>, args: seq<Value>, done: Patch, folder: string, mark: Clause)
    requires CarriesOut(sets, args, done) && done.folder.None?
    requires mark == if folder == "trash" then MarkDeleted else ClearDeleted
    ensures CarriesOut(sets + [Assign(Folder, |args| + 1)] + [mark], args + [Text(folder)],
      done.(folder := Some(folder)))
  {
    hide CarriesOut;
    var c, v := Assign(Folder, |args| + 1), Text(folder);
    forall m
      ensures AllAssigned(m, sets + [c] + [mark], args + [v]) == Some(PatchedRow(m, done.(folder := Some(folder))))
    {
      hide AllAssigned;
      assert AllAssigned(m, sets, args) == Some(PatchedRow(m, done)) by { UseCarriesOut(m, sets, args, done); }
      LaterArgumentsDoNotMatter(m, sets, args, v);
      OneMoreClause(m, sets, c, args + [v]);
      OneMoreClause(m, sets + [c], mark, args + [v]);
    }
    IntroCarriesOut(sets + [c] + [mark], args + [v], done.(folder := Some(folder)));
  }

  lemma UseCarriesOut(m: Message, sets: seq<Clause>, args: seq<Value>, done: Patch)
    requires CarriesOut(sets, args, done)
    ensures AllAssigned(m, sets, args) == Some(PatchedRow(m, done))
  {
  }

  lemma IntroCarriesOut(sets: seq<Clause>, args: seq<Value>, done: Patch)
    requires forall m :: AllAssigned(m, sets, args) == Some(PatchedRow(m, done))
    ensures CarriesOut(sets, args, done)
  {
  }

  ghost predicate Updates(q: Update, args: seq<Value>, user: nat, id: nat, p: Patch) {
    forall messages: map<nat, Message> ::
      Executed(messages, q, args) ==
      Some(if id in messages && messages[id].user == user then messages[id := PatchedRow(messages[id], p)]
           else messages)
  }

  lemma WhereClause(sets: seq<Clause>, args: seq<Value>, p: Patch, user: nat, id: nat)
    requires CarriesOut(sets, args, p)
    ensures Updates(Update(sets, |args| + 1, |args| + 2), args + [Id(id)] + [Id(user)], user, id, p)
  {
    hide PatchedRow;
    var q, args' := Update(sets, |args| + 1, |args| + 2), args + [Id(id)] + [Id(user)];
    assert Param(args', q.idParam) == Some(Id(id)) && Param(args', q.userParam) == Some(Id(user));
    forall messages: map<nat, Message> ensures Executed(messages, q, args') ==
      Some(if id in messages && messages[id].user == user then messages[id := PatchedRow(messages[id], p)]
           else messages)
    {
      hide AllAssigned;
      if id in messages {
        UseCarriesOut(messages[id], sets, args, p);
        LaterArgumentsDoNotMatter(messages[id], sets, args, Id(id));
        LaterArgumentsDoNotMatter(messages[id], sets, args + [Id(id)], Id(user));
      }
    }
  }

  /** The statement and its arguments, placeholders counted by `n`. None when there is nothing to set. */
  method BuildPatchSet(p: Patch, user: nat, id: nat) returns (r: Option<(Update, seq<Value>)>)
    ensures r.None? <==> p == Patch(None, None, None)
    ensures r.Some? ==> Updates(r.value.0, r.value.1, user, id, p)
  {
    hide CarriesOut, Updates;
    var sets: seq<Clause>, args: seq<Value>, n := [], [], 1;
    ghost var done := Patch(None, None, None);
    IntroCarriesOut(sets, args, done);
    if p.isRead.Some? {
      OneMoreField(sets, args, done, Assign(IsRead, n), Flag(p.isRead.value), done.(isRead := p.isRead));
      done := done.(isRead := p.isRead);
      sets := sets + [Assign(IsRead, n)];
      args := args + [Flag(p.isRead.value)];
      n := n + 1;
    }
    if p.isStarred.Some? {
      OneMoreField(sets, args, done, Assign(IsStarred, n), Flag(p.isStarred.value), done.(isStarred := p.isStarred));
      done := done.(isStarred := p.isStarred);
      sets := sets + [Assign(IsStarred, n)];
      args := args + [Flag(p.isStarred.value)];
      n := n + 1;
    }
    if p.folder.Some? {
      var mark := if p.folder.value == "trash" then MarkDeleted else ClearDeleted;
      FolderAndMark(sets, args, done, p.folder.value, mark);
      done := done.(folder := p.folder);
      sets := sets + [Assign(Folder, n)];
      args := args + [Text(p.folder.value)];
      n := n + 1;
      sets := sets + [mark];
    }
    if |sets| == 0 {
      return None;
    }
    WhereClause(sets, args, p, user, id);
    args := args + [Id(id)] + [Id(user)];
    return Some((Update(sets, n, n + 1), args));
  }

  // ---------------------------------------------------------------- deleting a user

  /** Digests only this user's messages refer to. */
  function ExclusiveBlobs(s: State, user: nat): set<string> {
    set id | id in s.messages && s.messages[id].user == user
             && !(exists m ::
                    m in s.messages && s.messages[m].blob == s.messages[id].blob && s.messages[m].user != user)
           :: s.messages[id].blob
  }

  /** Custom domains of this user on which nobody else has an address. */
  function ExclusiveDomains(s: State, user: nat): set<nat> {
    set d | d in s.domains && s.domains[d].owner == Some(user) && !s.domains[d].isPrimary
            && !(exists a :: a in s.addresses && s.addresses[a].domain == d && s.addresses[a].user != user)
  }

  /** `DELETE FROM users`, with everything the schema cascades to or sets to null. */
  function Cascaded(s: State, user: nat): State {
    s.(users := s.users - {user},
       messages := map id | id in s.messages && s.messages[id].user != user :: s.messages[id],
       queue := map q | q in s.queue && !(s.queue[q].message.Some? && s.queue[q].message.value in s.messages
                                          && s.messages[s.queue[q].message.value].user == user) :: s.queue[q],
       addresses := map a | a in s.addresses && s.addresses[a].user != user :: s.addresses[a],
       domains := map d | d in s.domains ::
                    if s.domains[d].owner == Some(user) then s.domains[d].(owner := None) else s.domains[d])
  }

  function Paths(blobs: set<string>): set<string> {
    set b | b in blobs :: BlobPath(b)
  }

  function UserDeleted(s: State, user: nat): State {
    var c := Cascaded(s, user);
    c.(domains := c.domains - ExclusiveDomains(s, user), files := s.files - Paths(ExclusiveBlobs(s, user)))
  }

  // ---------------------------------------------------------------- removing a custom domain

  datatype DomainReply = DomainGone | NoSuchDomain | NotYours | AddressesExist | StillReferred

  predicate HasAddress(s: State, d: nat) {
    exists a :: a in s.addresses && s.addresses[a].domain == d
  }

  predicate HasDirectAddress(s: State, d: nat) {
    exists a :: a in s.addresses && s.addresses[a].domain == d && s.addresses[a].direct
  }

  /** Direct addresses alone are counted first; the schema then refuses the deletion for any address at all. */
  function DomainRemoved(s: State, user: nat, d: nat): (State, DomainReply) {
    if d !in s.domains then (s, NoSuchDomain)
    else if s.domains[d].isPrimary || s.domains[d].owner != Some(user) then (s, NotYours)
    else if HasDirectAddress(s, d) then (s, AddressesExist)
    else if HasAddress(s, d) then (s, StillReferred)
    else (s.(domains := s.domains - {d}), DomainGone)
  }

  datatype DeleteResult = Done | UserNotFound | DomainInUse

  class Server {
    const hash: string -> string
    var files: map<string, string>
    var messages: map<nat, Message>
    var queue: map<nat, QueueRow>
    var users: set<nat>
    var addresses: map<nat, Address>
    var domains: map<nat, Domain>
    var nextId: nat

    function S(): State
      reads this
    {
      State(files, messages, queue, users, addresses, domains, nextId)
    }

    constructor (hash: string -> string, s: State)
      ensures this.hash == hash && S() == s
    {
      this.hash := hash;
      files, messages, queue := s.files, s.messages, s.queue;
      users, addresses, domains, nextId := s.users, s.addresses, s.domains, s.nextId;
    }

    /** Written under a temporary name and renamed; a blob already there is left alone. */
    method WriteBlob(data: string) returns (digest: string)
      modifies this`files
      ensures digest == hash(data)
      ensures files == Written(hash, old(files), data)
    {
      digest := hash(data);
      var path := BlobPath(digest);
      if path in files {
        return;
      }
      var tmp := path + ".tmp";
      files := files[tmp := data];
      files := (files - {tmp})[path := files[tmp]];
    }

    method ReadBlob(digest: string) returns (r: Option<string>)
      ensures r == if BlobPath(digest) in files then Some(files[BlobPath(digest)]) else None
    {
      if BlobPath(digest) in files {
        return Some(files[BlobPath(digest)]);
      }
      return None;
    }

    method DeleteBlob(digest: string)
      modifies this`files
      ensures files == old(files) - {BlobPath(digest)}
    {
      files := files - {BlobPath(digest)};
    }

    /** One blob, shared by the message rows of all recipients; a recipient that no longer resolves is skipped. */
    method HandleData(data: string, recipients: seq<Option<nat>>)
      modifies this
      ensures S() == Delivered(hash, old(S()), data, recipients)
    {
      var digest := WriteBlob(data);
      var i := 0;
      while i < |recipients|
        invariant i <= |recipients|
        invariant InsertedForAll(S(), recipients[i..], "inbox", digest) == Delivered(hash, old(S()), data, recipients)
      {
        assert recipients[i..][1..] == recipients[i + 1..];
        if recipients[i].Some? && recipients[i].value in users {
          messages := messages[nextId := Fresh(recipients[i].value, "inbox", digest)];
          nextId := nextId + 1;
        }
        i := i + 1;
      }
    }

    /** A row in the sender's mailbox, then one queue row for each recipient. */
    /** `listed` are the recipients the message names, `bcc` those it does not. */
    method HandleSend(user: nat, data: string, listed: seq<string>, bcc: seq<string>) returns (ok: bool)
      requires user in users
      modifies this
      ensures ok <==> listed != [] || Deliverable(bcc) != []
      ensures S() == if ok then Sent(hash, old(S()), user, data, |Deliverable(listed + bcc)|) else old(S())
    {
      hide TextLaws.Normal, Deliverable;
      var all := listed;
      assert Deliverable([]) == [] by { DeliverableIsEmpty(); }
      for i := 0 to |bcc|
        invariant all == listed + Deliverable(bcc[..i]) && S() == old(S())
      {
        var b := TextLaws.Normal(bcc[i]);
        assert bcc[..i + 1] == bcc[..i] + [bcc[i]];
        OneMoreAddress(bcc[..i], bcc[i]);
        if b != "" {
          all := all + [b];
        }
      }
      assert bcc[..|bcc|] == bcc;
      if all == [] {
        return false;
      }
      DeliverableOfBoth(listed, bcc);
      DeliverableOfBoth(listed, Deliverable(bcc));
      DeliverableAgain(bcc);
      var digest := WriteBlob(data);
      var message := nextId;
      messages := messages[message := Fresh(user, "sent", digest).(isRead := true)];
      nextId := nextId + 1;
      Enqueue(message, all);
      return true;
    }

    method Enqueue(message: nat, recipients: seq<string>)
      modifies this`queue, this`nextId
      ensures S() == QueuedFor(old(S()), message, |Deliverable(recipients)|)
    {
      hide TextLaws.Normal;
      for i := 0 to |recipients|
        invariant S() == QueuedFor(old(S()), message, |Deliverable(recipients[..i])|)
      {
        assert recipients[..i + 1][..i] == recipients[..i];
        if TextLaws.Normal(recipients[i]) != "" {
          QueuedOneMore(old(S()), message, |Deliverable(recipients[..i])|);
          queue := queue[nextId := QueueRow(Some(message), None)];
          nextId := nextId + 1;
        }
      }
      assert recipients[..|recipients|] == recipients;
    }

    method HandleDeleteMessage(user: nat, id: nat, permanent: bool) returns (reply: Reply)
      modifies this
      ensures (S(), reply) == if permanent then DeletedForGood(old(S()), user, id) else Trashed(old(S()), user, id)
    {
      if !permanent {
        if id !in messages || messages[id].user != user || messages[id].folder == "trash" {
          return NotFound;
        }
        messages := messages[id := messages[id].(folder := "trash", deleted := true)];
        return Updated;
      }
      if id !in messages || messages[id].user != user {
        return NotFound;
      }
      var folder, blob := messages[id].folder, messages[id].blob;
      if folder != "trash" {
        return NotInTrash;
      }
      messages := messages - {id};
      queue := map q | q in queue && queue[q].message != Some(id) :: queue[q];
      if !SomeMessageHas(messages, blob) {
        DeleteBlob(blob);
      }
      return Updated;
    }

    method HandlePatchMessage(user: nat, id: nat, p: Patch) returns (reply: Reply)
      modifies this
      ensures (S(), reply) == Patched(old(S()), user, id, p)
    {
      if p.folder.Some? && !ValidFolder(p.folder.value) {
        return InvalidFolder;
      }
      var q := BuildPatchSet(p, user, id);
      if q.None? {
        return NothingToUpdate;
      }
      var after := Executed(messages, q.value.0, q.value.1);
      messages := after.value;
      return if id in messages && messages[id].user == user then Updated else NotFound;
    }

    /** The domain deletions inside the transaction: each fails if an address still refers to the domain. */
    method DropDomains(t: State, ids: set<nat>) returns (t': State, blocked: bool)
      ensures !blocked ==> t' == t.(domains := t.domains - ids)
      ensures !blocked ==> forall a :: a in t.addresses ==> t.addresses[a].domain !in ids
      ensures blocked ==> exists a :: a in t.addresses && t.addresses[a].domain in ids
    {
      t', blocked := t, false;
      var left := ids;
      while left != {}
        invariant left <= ids
        invariant t' == t.(domains := t.domains - (ids - left))
        invariant forall a :: a in t.addresses ==> t.addresses[a].domain !in ids - left
        decreases left
      {
        var id :| id in left;
        if exists a :: a in t'.addresses && t'.addresses[a].domain == id {
          return t', true;
        }
        t' := t'.(domains := t'.domains - {id});
        left := left - {id};
        assert t.domains - (ids - left) == t'.domains;
      }
      assert ids - left == ids;
    }

    /** Removal of a custom domain by its owner. */
    method RemoveDomain(user: nat, d: nat) returns (r: DomainReply)
      modifies this`domains
      ensures (S(), r) == DomainRemoved(old(S()), user, d)
    {
      if d !in domains {
        return NoSuchDomain;
      }
      if domains[d].isPrimary {
        return NotYours;
      }
      if domains[d].owner.None? || domains[d].owner.value != user {
        return NotYours;
      }
      var counted := set a | a in addresses && addresses[a].domain == d && addresses[a].direct;
      if |counted| > 0 {
        ghost var a :| a in counted;
        return AddressesExist;
      }
      assert forall a :: a in addresses && addresses[a].domain == d && addresses[a].direct ==> a in counted;
      var t, blocked := DropDomains(S(), {d});
      if blocked {
        return StillReferred;
      }
      domains := t.domains;
      return DomainGone;
    }

    method DropBlobs(digests: set<string>)
      modifies this`files
      ensures files == old(files) - Paths(digests)
    {
      var left := digests;
      while left != {}
        invariant left <= digests
        invariant files == old(files) - Paths(digests - left)
        decreases left
      {
        var d :| d in left;
        DeleteBlob(d);
        left := left - {d};
        assert Paths(digests - left) == Paths(digests - left - {d}) + {BlobPath(d)};
        assert digests - left - {d} == digests - (left + {d});
      }
      assert digests - left == digests;
    }

    /** Never blocked by the restriction on domains: the ones it drops have no address left. */
    method DeleteUser(user: nat) returns (r: DeleteResult)
      modifies this
      ensures r == if user in old(users) then Done else UserNotFound
      ensures S() == if user in old(users) then UserDeleted(old(S()), user) else old(S())
    {
      var s := S();
      var blobs := ExclusiveBlobs(s, user);
      var ids := ExclusiveDomains(s, user);
      if user !in users {
        return UserNotFound;
      }
      var t, blocked := DropDomains(Cascaded(s, user), ids);
      if blocked {
        return DomainInUse;
      }
      messages, queue, users, addresses, domains := t.messages, t.queue, t.users, t.addresses, t.domains;
      DropBlobs(blobs);
      return Done;
    }
  }
}
