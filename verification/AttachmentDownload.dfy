/** Downloading one attachment: the rows written when a message is stored (internal/smtp/inbound.go:507-542,
  * internal/web/handlers_compose.go:257-263) and the handler that serves them
  * (internal/web/handlers_messages.go:217-304). */
module AttachmentDownload {
  import opened Wrappers
  import opened AttachmentWalk
  import GoText

  datatype MessageRow = MessageRow(user: string, blob: string, securityState: string, hasAttachments: bool)

  /** The two tables; attachment rows are keyed by message and part index. */
  datatype Tables = Tables(messages: map<nat, MessageRow>, attachments: map<(nat, nat), AttachmentMeta>, nextId: nat)

  datatype Refusal = BadIndex | MessageNotFound | EncryptedMessage | AttachmentNotFound | BlobUnreadable | NotExtracted

  datatype Served = Served(contentType: string, name: string, body: string)

  // ---------------------------------------------------------------- the name

  predicate Harmless(c: char) {
    c != '/' && c != '\\' && c >= ' '
  }

  function Sanitized(name: string): string {
    if name == "" then ""
    else Sanitized(name[..|name| - 1]) + if Harmless(name[|name| - 1]) then [name[|name| - 1]] else ""
  }

  method SanitizeAttachmentFilename(name: string) returns (b: string)
    ensures b == Sanitized(name)
  {
    b := "";
    for i := 0 to |name|
      invariant b == Sanitized(name[..i])
    {
      assert name[..i + 1][..i] == name[..i];
      if Harmless(name[i]) {
        b := b + [name[i]];
      }
    }
    assert name[..|name|] == name;
  }

  /** The name without separators and control characters, or one made from the number. */
  function ServedName(name: string, index: nat): string {
    if Sanitized(name) == "" then "attachment-" + GoText.Decimal(index) else Sanitized(name)
  }

  /** No separator and no control character reaches the browser, and a name without them is not touched. */
  lemma {:induction false} SanitizedIsSafe(name: string)
    ensures forall c <- Sanitized(name) :: c != '/' && c != '\\' && c >= ' ' && c in name
    ensures Sanitized(name) == name <==> forall c <- name :: c != '/' && c != '\\' && c >= ' '
    ensures |Sanitized(name)| <= |name|
    decreases |name|
  {
    if name != "" {
      var init, last := name[..|name| - 1], name[|name| - 1];
      assert name == init + [last];
      SanitizedIsSafe(init);
      assert last in name && forall c <- init :: c in name;
      if Sanitized(name) == name {
        assert Sanitized(name)[..|init|] == init;
      }
    }
  }

  /** What goes is exactly those characters; the others keep their order. */
  lemma {:induction false} SanitizedIsExact(a: string, c: char, b: string)
    ensures Sanitized(a + [c] + b) ==
            Sanitized(a) + (if c == '/' || c == '\\' || c < ' ' then "" else [c]) + Sanitized(b)
    decreases |b|
  {
    var all := a + [c] + b;
    if b == "" {
      assert all[..|all| - 1] == a;
    } else {
      assert all[..|all| - 1] == a + [c] + b[..|b| - 1];
      SanitizedIsExact(a, c, b[..|b| - 1]);
    }
  }

  /** The name itself if nothing in it had to go, one made from the number if nothing was left. */
  lemma ServedNameIsTheName(name: string, index: nat)
    ensures (forall c <- name :: c != '/' && c != '\\' && c >= ' ') && name != "" ==> ServedName(name, index) == name
    ensures (forall c <- name :: c == '/' || c == '\\' || c < ' ') ==>
              ServedName(name, index) == "attachment-" + GoText.Decimal(index)
  {
    SanitizedIsSafe(name);
    if Sanitized(name) != "" {
      assert Sanitized(name)[0] in Sanitized(name);
    }
  }

  // ---------------------------------------------------------------- storing and serving as functions

  /** Each insertion may fail on its own, which is not fatal; `lost` are the parts whose insertion does. */
  function WithRows(rows: map<(nat, nat), AttachmentMeta>, id: nat, list: seq<AttachmentMeta>, lost: set<nat>)
    : map<(nat, nat), AttachmentMeta>
    decreases |list|
  {
    if list == [] then rows
    else
      var before, a := WithRows(rows, id, list[..|list| - 1], lost), list[|list| - 1];
      if a.partIndex in lost || (id, a.partIndex) in before then before else before[(id, a.partIndex) := a]
  }

  function Stored(t: Tables, user: string, meta: MsgMeta, blob: string, lost: set<nat>): Tables {
    Tables(t.messages[t.nextId := MessageRow(user, blob, meta.securityState, meta.hasAttachments)],
           WithRows(t.attachments, t.nextId, meta.attachments, lost), t.nextId + 1)
  }

  /** Attachment rows go with their message. */
  function Removed(t: Tables, id: nat): Tables {
    t.(messages := t.messages - {id}, attachments := map k | k in t.attachments && k.0 != id :: t.attachments[k])
  }

  function Download(
    read: string -> Option<Entity>, readBlob: string -> Option<string>, t: Tables, user: string, id: nat,
      indexText: string)
    : Result<Served, Refusal>
  {
    var index := GoText.Atoi(indexText);
    if index.None? || index.value < 0 then Err(BadIndex)
    else if id !in t.messages || t.messages[id].user != user then Err(MessageNotFound)
    else if t.messages[id].securityState == "pgp_encrypted" then Err(EncryptedMessage)
    else if (id, index.value) !in t.attachments then Err(AttachmentNotFound)
    else
      var raw := readBlob(t.messages[id].blob);
      if raw.None? then Err(BlobUnreadable)
      else
        match PartAt(read, raw.value, index.value)
        case Err(_) => Err(NotExtracted)
        case Ok(part) => Ok(Served(part.contentType, ServedName(part.filename, index.value), part.body))
  }

  /** The attachments the message page links to. */
  predicate OnPage(t: Tables, id: nat, i: nat) {
    && id in t.messages && t.messages[id].hasAttachments && t.messages[id].securityState != "pgp_encrypted"
    && (id, i) in t.attachments
  }

  // ---------------------------------------------------------------- the same on the database

  class Database {
    var messages: map<nat, MessageRow>
    var attachments: map<(nat, nat), AttachmentMeta>
    var nextId: nat

    function State(): Tables
      reads this
    {
      Tables(messages, attachments, nextId)
    }

    constructor ()
      ensures State() == Tables(map[], map[], 0)
    {
      messages, attachments, nextId := map[], map[], 0;
    }

    method StoreMessage(user: string, meta: MsgMeta, blob: string, lost: set<nat>) returns (id: nat)
      modifies this
      ensures id == old(nextId) && State() == Stored(old(State()), user, meta, blob, lost)
    {
      id := nextId;
      messages := messages[id := MessageRow(user, blob, meta.securityState, meta.hasAttachments)];
      nextId := id + 1;
      var list := meta.attachments;
      for i := 0 to |list|
        invariant nextId == id + 1
        invariant messages == old(messages)[id := MessageRow(user, blob, meta.securityState, meta.hasAttachments)]
        invariant attachments == WithRows(old(attachments), id, list[..i], lost)
      {
        assert list[..i + 1][..i] == list[..i];
        if list[i].partIndex !in lost && (id, list[i].partIndex) !in attachments {
          attachments := attachments[(id, list[i].partIndex) := list[i]];
        }
      }
      assert list[..|list|] == list;
    }

    method GetAttachment(
      read: string -> Option<Entity>, readBlob: string -> Option<string>, user: string, id: nat, indexText: string)
      returns (r: Result<Served, Refusal>)
      ensures r == Download(read, readBlob, State(), user, id, indexText)
    {
      hide PartAt, GoText.Atoi;
      var index := GoText.Atoi(indexText);
      if index.None? || index.value < 0 {
        return Err(BadIndex);
      }
      if id !in messages || messages[id].user != user {
        return Err(MessageNotFound);
      }
      if messages[id].securityState == "pgp_encrypted" {
        return Err(EncryptedMessage);
      }
      if (id, index.value) !in attachments {
        return Err(AttachmentNotFound);
      }
      var raw := readBlob(messages[id].blob);
      if raw.None? {
        return Err(BlobUnreadable);
      }
      var part := ReadAttachmentAt(read, raw.value, index.value);
      if part.Err? {
        return Err(NotExtracted);
      }
      var name := SanitizeAttachmentFilename(part.value.filename);
      if name == "" {
        name := "attachment-" + GoText.Decimal(index.value);
      }
      return Ok(Served(part.value.contentType, name, part.value.body));
    }
  }

  // ---------------------------------------------------------------- runs

  /** A message delivered or sent, a bounce notice, which is stored as plain text without looking into it, or a message
    * deleted. */
  datatype Event =
    | Store(user: string, raw: string, lost: set<nat>)
    | Bounce(user: string, raw: string)
    | Remove(id: nat)

  /** The tables, with the message every row was stored for and the insertions that failed then. */
  datatype World = World(tables: Tables, origin: map<nat, Event>)

  function Step(read: string -> Option<Entity>, hash: string -> string, w: World, e: Event): World {
    match e
    case Store(user, raw, lost) =>
      World(Stored(w.tables, user, Meta(read, raw), hash(raw), lost), w.origin[w.tables.nextId := e])
    case Bounce(user, raw) =>
      World(Stored(w.tables, user, NO_META, hash(raw), {}), w.origin[w.tables.nextId := e])
    case Remove(id) => World(Removed(w.tables, id), w.origin)
  }

  function Run(read: string -> Option<Entity>, hash: string -> string, es: seq<Event>): World
    decreases |es|
  {
    if es == [] then World(Tables(map[], map[], 0), map[])
    else Step(read, hash, Run(read, hash, es[..|es| - 1]), es[|es| - 1])
  }

  /** What message `id`, stored for `e`, lists and did not lose. */
  predicate Listed(read: string -> Option<Entity>, e: Event, i: int) {
    e.Store? && 0 <= i < |Meta(read, e.raw).attachments| && i !in e.lost
  }

  ghost predicate RowsMatch(read: string -> Option<Entity>, rows: map<(nat, nat), AttachmentMeta>, id: nat, e: Event) {
    && (forall i: nat :: (id, i) in rows <==> Listed(read, e, i))
    && (forall i: nat :: Listed(read, e, i) && (id, i) in rows ==> rows[(id, i)] == Meta(read, e.raw).attachments[i])
  }

  ghost predicate MessageOk(read: string -> Option<Entity>, hash: string -> string, w: World, id: nat) {
    && id in w.tables.messages && id in w.origin && !w.origin[id].Remove? && id < w.tables.nextId
    && var e, row := w.origin[id], w.tables.messages[id];
       var meta := if e.Store? then Meta(read, e.raw) else NO_META;
       && row == MessageRow(e.user, hash(e.raw), meta.securityState, meta.hasAttachments)
       && RowsMatch(read, w.tables.attachments, id, e)
  }

  ghost predicate Inv(read: string -> Option<Entity>, hash: string -> string, w: World) {
    && (forall id :: id in w.tables.messages ==> MessageOk(read, hash, w, id))
    && (forall k :: k in w.tables.attachments ==> k.0 in w.tables.messages)
  }

  /** Entries are numbered by their position, so no insertion meets the row of another. */
  lemma NumberedByPosition(read: string -> Option<Entity>, raw: string)
    ensures forall i :: 0 <= i < |Meta(read, raw).attachments| ==> Meta(read, raw).attachments[i].partIndex == i
  {
    hide Leaves, NameOf;
  }

  lemma {:induction false} RowsAfterStoring(
    rows: map<(nat, nat), AttachmentMeta>, id: nat, list: seq<AttachmentMeta>, lost: set<nat>)
    requires forall k :: k in rows ==> k.0 != id
    requires forall i :: 0 <= i < |list| ==> list[i].partIndex == i
    ensures var after := WithRows(rows, id, list, lost);
            && (forall k: (nat, nat) :: k.0 != id ==>
                  (k in after <==> k in rows) && (k in rows ==> after[k] == rows[k]))
            && (forall i: nat :: (id, i) in after <==> i < |list| && i !in lost)
            && (forall i: nat :: (id, i) in after ==> i < |list| && after[(id, i)] == list[i])
    decreases |list|
  {
    if list != [] {
      RowsAfterStoring(rows, id, list[..|list| - 1], lost);
    }
  }

  lemma StoreKeeps(read: string -> Option<Entity>, hash: string -> string, w: World, e: Event)
    requires Inv(read, hash, w) && e.Store?
    ensures Inv(read, hash, Step(read, hash, w, e))
  {
    hide Meta, WithRows;
    var t, t' := w.tables, Step(read, hash, w, e).tables;
    NumberedByPosition(read, e.raw);
    RowsAfterStoring(t.attachments, t.nextId, Meta(read, e.raw).attachments, e.lost);
    forall id | id in t'.messages ensures MessageOk(read, hash, Step(read, hash, w, e), id) {
      if id != t.nextId {
        assert MessageOk(read, hash, w, id);
        assert forall i: nat :: (id, i) in t'.attachments <==> (id, i) in t.attachments;
      }
    }
  }

  lemma BounceKeeps(read: string -> Option<Entity>, hash: string -> string, w: World, e: Event)
    requires Inv(read, hash, w) && e.Bounce?
    ensures Inv(read, hash, Step(read, hash, w, e))
  {
    hide Meta;
    var t, t' := w.tables, Step(read, hash, w, e).tables;
    assert t'.attachments == t.attachments;
    forall id | id in t'.messages ensures MessageOk(read, hash, Step(read, hash, w, e), id) {
      if id != t.nextId {
        assert MessageOk(read, hash, w, id);
      }
    }
  }

  lemma RemoveKeeps(read: string -> Option<Entity>, hash: string -> string, w: World, e: Event)
    requires Inv(read, hash, w) && e.Remove?
    ensures Inv(read, hash, Step(read, hash, w, e))
  {
    hide Meta;
    var t, t' := w.tables, Step(read, hash, w, e).tables;
    forall id | id in t'.messages ensures MessageOk(read, hash, Step(read, hash, w, e), id) {
      assert MessageOk(read, hash, w, id);
      assert forall i: nat :: (id, i) in t'.attachments <==> (id, i) in t.attachments;
    }
  }

  lemma {:induction false} RunKeeps(read: string -> Option<Entity>, hash: string -> string, es: seq<Event>)
    ensures Inv(read, hash, Run(read, hash, es))
    decreases |es|
  {
    hide Inv, Step;
    if es == [] {
      NothingStored(read, hash);
    } else {
      RunKeeps(read, hash, es[..|es| - 1]);
      var w, e := Run(read, hash, es[..|es| - 1]), es[|es| - 1];
      if e.Store? {
        StoreKeeps(read, hash, w, e);
      } else if e.Bounce? {
        BounceKeeps(read, hash, w, e);
      } else {
        RemoveKeeps(read, hash, w, e);
      }
    }
  }

  lemma NothingStored(read: string -> Option<Entity>, hash: string -> string)
    ensures Inv(read, hash, World(Tables(map[], map[], 0), map[]))
  {}

  lemma EncryptedListsNothing(read: string -> Option<Entity>, raw: string)
    requires Meta(read, raw).attachments != []
    ensures Meta(read, raw).securityState != "pgp_encrypted" && Meta(read, raw).hasAttachments
  {
    hide Leaves, Metas;
  }

  /** After any run of deliveries, sent mail, bounces and deletions, a download succeeds if and only if it is asked
    * for by the owner of an existing message whose blob can be read, and the number is one the message lists and
    * whose row was written; then it has the listed type and size, under the sanitised listed name. */
  lemma DownloadIffListed(
    read: string -> Option<Entity>, hash: string -> string, readBlob: string -> Option<string>, es: seq<Event>,
    user: string, id: nat, indexText: string)
    requires var w := Run(read, hash, es);
             id in w.origin && !w.origin[id].Remove? ==>
               readBlob(hash(w.origin[id].raw)) in {None, Some(w.origin[id].raw)}
    ensures var w, index := Run(read, hash, es), GoText.Atoi(indexText);
            var d := Download(read, readBlob, w.tables, user, id, indexText);
            && (d.Ok? <==>
                  && id in w.tables.messages && w.tables.messages[id].user == user
                  && readBlob(w.tables.messages[id].blob).Some?
                  && index.Some? && id in w.origin && Listed(read, w.origin[id], index.value))
            && (d.Ok? ==>
                  var a := Meta(read, w.origin[id].raw).attachments[index.value];
                  && d.value.contentType == a.contentType && |d.value.body| == a.size
                  && d.value.name == ServedName(a.filename, index.value) != "")
  {
    hide Run, Meta, PartAt, GoText.Atoi, Sanitized;
    RunKeeps(read, hash, es);
    var w, index := Run(read, hash, es), GoText.Atoi(indexText);
    if id in w.tables.messages {
      assert MessageOk(read, hash, w, id);
      var raw := w.origin[id].raw;
      if index.Some? && Listed(read, w.origin[id], index.value) {
        EncryptedListsNothing(read, raw);
        WalksAgree(read, raw, index.value);
        assert (id, index.value) in w.tables.attachments;
      }
    }
  }

  /** The links on a message's page are exactly those its owner can follow. */
  lemma LinksWork(
    read: string -> Option<Entity>, hash: string -> string, readBlob: string -> Option<string>, es: seq<Event>, id: nat,
    i: nat)
    requires i <= GoText.MAX_INT
    requires var w := Run(read, hash, es);
             && id in w.tables.messages
             && (id in w.origin && !w.origin[id].Remove? ==>
                   readBlob(hash(w.origin[id].raw)) == Some(w.origin[id].raw))
    ensures var t := Run(read, hash, es).tables;
            OnPage(t, id, i) <==> Download(read, readBlob, t, t.messages[id].user, id, GoText.Decimal(i)).Ok?
  {
    hide Run, Meta, Download, GoText.Atoi;
    RunKeeps(read, hash, es);
    var w := Run(read, hash, es);
    assert MessageOk(read, hash, w, id);
    GoText.AtoiDecimal(i);
    DownloadIffListed(read, hash, readBlob, es, w.tables.messages[id].user, id, GoText.Decimal(i));
    if Listed(read, w.origin[id], i) {
      EncryptedListsNothing(read, w.origin[id].raw);
    }
  }

  /** After any run, a stranger is told that there is no such message, and the owner is told that it is encrypted if and
    * only if that is its outer type, and that there is no such attachment if and only if it is not and lists none of
    * that number, or lost its row. */
  lemma RefusalsAreExact(
    read: string -> Option<Entity>, hash: string -> string, readBlob: string -> Option<string>, es: seq<Event>,
    user: string, id: nat, indexText: string)
    requires GoText.Atoi(indexText).Some? && GoText.Atoi(indexText).value >= 0
    ensures var w, index := Run(read, hash, es), GoText.Atoi(indexText).value;
            var d := Download(read, readBlob, w.tables, user, id, indexText);
            var own := id in w.tables.messages && w.tables.messages[id].user == user;
            && (d == Err(MessageNotFound) <==> !own)
            && (own ==> id in w.origin && !w.origin[id].Remove?
                        && var encrypted := w.origin[id].Store? && Encrypted(read, w.origin[id].raw);
                           && (d == Err(EncryptedMessage) <==> encrypted)
                           && (d == Err(AttachmentNotFound) <==> !encrypted && !Listed(read, w.origin[id], index))
                           && (d == Err(BlobUnreadable) <==>
                                 !encrypted && Listed(read, w.origin[id], index)
                                 && readBlob(w.tables.messages[id].blob).None?))
  {
    hide Run, Meta, PartAt, GoText.Atoi, Sanitized;
    RunKeeps(read, hash, es);
    var w := Run(read, hash, es);
    SecurityNamesDiffer();
    if id in w.tables.messages {
      assert MessageOk(read, hash, w, id);
      EncryptedIsSeen(read, w.origin[id].raw);
    }
  }

  predicate Encrypted(read: string -> Option<Entity>, raw: string) {
    read(raw).Some? && read(raw).value.header.contentType == "multipart/encrypted"
  }

  lemma EncryptedIsSeen(read: string -> Option<Entity>, raw: string)
    ensures Meta(read, raw).securityState == "pgp_encrypted" <==> Encrypted(read, raw)
    ensures Encrypted(read, raw) ==> Meta(read, raw).attachments == []
  {
    hide Leaves, Metas;
    SecurityNamesDiffer();
  }

  /** A message stored is there until it is deleted, whatever else happens. */
  lemma {:induction false} StoredStays(
    read: string -> Option<Entity>, hash: string -> string, es: seq<Event>, e: Event, later: seq<Event>)
    requires !e.Remove? && Remove(Run(read, hash, es).tables.nextId) !in later
    ensures var id, w := Run(read, hash, es).tables.nextId, Run(read, hash, es + [e] + later);
            id in w.tables.messages && id in w.origin && w.origin[id] == e && id < w.tables.nextId
    decreases |later|
  {
    hide Meta, WithRows;
    var all := es + [e] + later;
    if later == [] {
      assert all[..|all| - 1] == es;
    } else {
      var init := later[..|later| - 1];
      assert all[..|all| - 1] == es + [e] + init && all[|all| - 1] == later[|later| - 1];
      StoredStays(read, hash, es, e, init);
    }
  }

  /** A deleted message is gone with all its attachment rows, and no other row is; it never comes back, since numbers
    * are not given twice. */
  lemma {:induction false} RemovedStaysGone(
    read: string -> Option<Entity>, hash: string -> string, es: seq<Event>, id: nat, later: seq<Event>)
    requires id < Run(read, hash, es).tables.nextId
    ensures var t, t' := Run(read, hash, es).tables, Run(read, hash, es + [Remove(id)]).tables;
      && t'.messages == t.messages - {id}
      && (forall k :: k in t'.attachments <==> k in t.attachments && k.0 != id)
      && (forall k :: k in t'.attachments ==> t'.attachments[k] == t.attachments[k])
    ensures var t := Run(read, hash, es + [Remove(id)] + later).tables; id !in t.messages && id < t.nextId
    decreases |later|
  {
    hide Meta, WithRows;
    var all := es + [Remove(id)] + later;
    assert (es + [Remove(id)])[..|es|] == es;
    if later == [] {
      assert all == es + [Remove(id)];
    } else {
      var init := later[..|later| - 1];
      assert all[..|all| - 1] == es + [Remove(id)] + init;
      RemovedStaysGone(read, hash, es, id, init);
    }
  }
}
