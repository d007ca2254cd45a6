/** What an export and an import do to the attachment links of a mailbox (internal/archive/archive.go:378-424). */
module ImportedAttachments {
  import opened Wrappers
  import GoText
  import MailStore
  import AttachmentWalk
  import opened Archive
  import opened ArchiveLaws
  import opened AttachmentDownload

  /** The rows of a mailbox as the message page and the download handler look at them. */
  function TablesOf(box: Mailbox, user: string): Tables {
    Tables(
      map id | id in box.messages :: RowOf(box.messages[id], user),
      map k | k in box.attachments && k.1 >= 0 :: (k.0, k.1 as nat) := MetaOf(box.attachments[k], k.1),
      box.nextId)
  }

  function RowOf(m: Mail, user: string): MessageRow {
    MessageRow(user, m.blob, m.details.securityState, m.details.hasAttachments)
  }

  function MetaOf(a: Attachment, part: nat): AttachmentWalk.AttachmentMeta {
    AttachmentWalk.AttachmentMeta(part, a.filename, a.contentType, if a.sizeBytes < 0 then 0 else a.sizeBytes)
  }

  function ReadFrom(files: map<string, string>): string -> Option<string> {
    digest => if MailStore.BlobPath(digest) in files then Some(files[MailStore.BlobPath(digest)]) else None
  }

  /** The page of an exported message links to this attachment. */
  predicate Linked(f: Fetched, m: ExportedMessage, a: ExportedAttachment) {
    && m in f.messages && a in f.attachments && a.message == m.id
    && m.mail.details.hasAttachments && m.mail.details.securityState != "pgp_encrypted"
  }

  /** Every link of a message whose blob is there could be followed where the archive was made. */
  ghost predicate LinksWorked(
    read: string -> Option<AttachmentWalk.Entity>, files: map<string, string>, f: Fetched)
  {
    forall m, a :: Linked(f, m, a) && MailStore.BlobPath(m.mail.blob) in files ==>
      && 0 <= a.part <= GoText.MAX_INT
      && AttachmentWalk.PartAt(read, files[MailStore.BlobPath(m.mail.blob)], a.part).Ok?
  }

  /** The download gives part `i` of this exported message. */
  ghost predicate Leads(
    read: string -> Option<AttachmentWalk.Entity>, files: map<string, string>, m: ExportedMessage, i: nat,
    d: Result<Served, Refusal>)
  {
    && MailStore.BlobPath(m.mail.blob) in files
    && var part := AttachmentWalk.PartAt(read, files[MailStore.BlobPath(m.mail.blob)], i);
       part.Ok? && d == Ok(Served(part.value.contentType, ServedName(part.value.filename, i), part.value.body))
  }

  /** Two servers never hold different contents under one digest. */
  ghost predicate NoCollision(files: map<string, string>, target: map<string, string>) {
    forall path :: path in files && path in target ==> files[path] == target[path]
  }

  /** A row of the imported mailbox is one of the exported ones, under its message's new number. */
  lemma ItsOrigin(box: Mailbox, base: nat, k: seq<ExportedMessage>, f: Fetched, id: nat, part: int)
    returns (m: ExportedMessage, a: ExportedAttachment)
    requires HoldsExport(box, base, k, f) && id in box.messages && (id, part) in box.attachments
    ensures m in k && a in f.attachments && a.message == m.id && a.part == part && box.messages[id] == m.mail
  {
    assert AttachedAs((id, part), base, k, f.attachments);
    var i, x :| 0 <= i < |k| && x in f.attachments && x.message == k[i].id && (id, part) == (base + i, x.part);
    m, a := k[i], x;
  }

  /** Exported and imported into an empty mailbox, every link on the page of an imported message can be followed, and
    * leads to the same part of the same message, if every link could before. */
  lemma ImportedLinksWork(
    env: Env, files: map<string, string>, fp: string, armored: string, f: Fetched, target: map<string, string>,
    base: nat, mine: string, read: string -> Option<AttachmentWalk.Entity>, user: string, id: nat, i: nat)
    requires CodecsOk(env) && FetchedOk(env, files, f) && GoText.EqualFold(fp, mine)
    requires 7 + |Exported(files, f.messages, f.attachments).blobs| <= MAX_TAR_ENTRIES
    requires LinksWorked(read, files, f) && NoCollision(files, target)
    ensures var b := Account(target, Mailbox(map[], map[], map[], map[], [], base));
            var after := Imported(env, b, Some(mine), ArchiveOf(env, files, fp, armored, f)).0;
            var t := TablesOf(after.box, user);
            OnPage(t, id, i) ==>
              exists m, a :: Linked(f, m, a) && a.part == i && t.messages[id] == RowOf(m.mail, user)
                && Leads(read, files, m, i, Download(read, ReadFrom(after.files), t, user, id, GoText.Decimal(i)))
  {
    hide CodecsOk, FetchedOk, DistinctIds, GoText.EqualFold, Exported, ArchiveOf, Imported, HoldsExport,
      GoText.Decimal, GoText.Atoi;
    hide AttachmentWalk.PartAt, MailStore.BlobPath, Kept, NoTwoMatch, MailStore.FilesOk, ServedName;
    var e := Exported(files, f.messages, f.attachments);
    var k := Kept([], e.messages);
    var b := Account(target, Mailbox(map[], map[], map[], map[], [], base));
    RoundTrip(env, files, fp, armored, f, target, base, mine);
    var after := Imported(env, b, Some(mine), ArchiveOf(env, files, fp, armored, f)).0;
    var t := TablesOf(after.box, user);
    if OnPage(t, id, i) {
      var m, a := ItsOrigin(after.box, base, k, f, id, i);
      ExportedIdsAreDistinct(env, files, f);
      KeptAreExported([], e.messages);
      ExportedWereFetched(env, files, f);
      assert BlobArrived(env, files, target, after.files, m.mail.blob);
      assert Linked(f, m, a);
      GoText.AtoiDecimal(i);
      assert Leads(read, files, m, i, Download(read, ReadFrom(after.files), t, user, id, GoText.Decimal(i)));
    }
  }

  lemma ExportedWereFetched(env: Env, files: map<string, string>, f: Fetched)
    requires FetchedOk(env, files, f)
    ensures forall m :: m in Exported(files, f.messages, f.attachments).messages ==>
              m in f.messages && MailStore.BlobPath(m.mail.blob) in files
  {
    hide Exported;
    ExportIsClosed(files, f.messages, f.attachments);
  }
}
