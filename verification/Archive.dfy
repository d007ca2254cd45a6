/** Exporting a mailbox to an archive and importing it again (internal/archive/archive.go). */
module Archive {
  import opened Wrappers
  import GoText
  import MailStore

  // ---------------------------------------------------------------- rows and documents

  datatype Details = Details(threadId: Option<string>, folder: string, fromAddress: string,
                             toAddresses: seq<string>, ccAddresses: seq<string>, subject: string,
                             messageDate: int, sizeBytes: int, isRead: bool, isStarred: bool,
                             securityState: string, signatureStatus: string, hasAttachments: bool,
                             deletedAt: Option<int>)

  datatype Mail = Mail(blob: string, receivedAt: int, messageId: Option<string>, details: Details)

  datatype ExportedMessage = ExportedMessage(id: nat, mail: Mail)

  datatype Attachment = Attachment(filename: string, contentType: string, sizeBytes: int)

  datatype ExportedAttachment = ExportedAttachment(message: nat, part: int, attachment: Attachment)

  datatype KnownKey = KnownKey(address: string, fingerprint: string, armored: string, source: string,
                               firstSeen: int, lastSeen: int)

  datatype Rotation = Rotation(oldFingerprint: string, newFingerprint: string, oldArmored: string,
                               newArmored: string, attestation: string, statement: string, createdAt: int)

  datatype Draft = Draft(fromAddress: string, toAddresses: seq<string>, ccAddresses: seq<string>,
                         bccAddresses: seq<string>, subject: string, body: string,
                         inReplyTo: Option<string>, references: Option<string>, createdAt: int, updatedAt: int)

  /** The rows of one user. */
  datatype Mailbox = Mailbox(messages: map<nat, Mail>, attachments: map<(nat, int), Attachment>,
                             knownKeys: map<string, KnownKey>, rotations: map<(string, string), Rotation>,
                             drafts: seq<Draft>, nextId: nat)

  const SCHEMA_VERSION := 1
  const MAX_TAR_ENTRIES := 1_000_000

  datatype Manifest = Manifest(schemaVersion: int, keyFingerprint: string, messageCount: nat, blobCount: nat,
                               knownKeyCount: nat, keyRotationCount: nat, draftCount: nat)

  datatype Codec<!T> = Codec(render: T -> string, parse: string -> Option<T>)

  /** The JSON library, and SHA-256 in hexadecimal. */
  datatype Env = Env(hash: string -> string,
                     manifest: Codec<Manifest>, messages: Codec<seq<ExportedMessage>>,
                     attachments: Codec<seq<ExportedAttachment>>, knownKeys: Codec<seq<KnownKey>>,
                     rotations: Codec<seq<Rotation>>, drafts: Codec<seq<Draft>>)

  datatype Entry = Entry(name: string, data: string)

  // ---------------------------------------------------------------- export

  /** The digests of `ms`, each at its first occurrence. */
  function Digests(ms: seq<ExportedMessage>): seq<string> {
    if ms == [] then []
    else
      var ds, d := Digests(ms[..|ms| - 1]), ms[|ms| - 1].mail.blob;
      if d in ds then ds else ds + [d]
  }

  function Filter<T>(keep: T -> bool, s: seq<T>): seq<T> {
    if s == [] then []
    else
      var t, x := Filter(keep, s[..|s| - 1]), s[|s| - 1];
      if keep(x) then t + [x] else t
  }

  lemma {:induction false} FilterIsExact<T>(keep: T -> bool, s: seq<T>)
    ensures |Filter(keep, s)| <= |s|
    ensures forall x :: x in Filter(keep, s) <==> x in s && keep(x)
    ensures (forall x :: x in s ==> keep(x)) ==> Filter(keep, s) == s
  {
    if s != [] {
      FilterIsExact(keep, s[..|s| - 1]);
      assert s == s[..|s| - 1] + [s[|s| - 1]];
    }
  }

  /** What is kept stays in order, each element as often as it occurs. */
  lemma {:induction false} FilterInOrder<T>(keep: T -> bool, a: seq<T>, x: T, b: seq<T>)
    ensures Filter(keep, a + [x] + b) == Filter(keep, a) + (if keep(x) then [x] else []) + Filter(keep, b)
    decreases |b|
  {
    var all := a + [x] + b;
    if b == [] {
      assert all[..|all| - 1] == a;
    } else {
      assert all[..|all| - 1] == a + [x] + b[..|b| - 1];
      FilterInOrder(keep, a, x, b[..|b| - 1]);
    }
  }

  lemma {:induction false} DigestsAreDistinct(ms: seq<ExportedMessage>)
    ensures forall i, j :: 0 <= i < j < |Digests(ms)| ==> Digests(ms)[i] != Digests(ms)[j]
    ensures forall d :: d in Digests(ms) <==> exists m :: m in ms && m.mail.blob == d
    ensures |Digests(ms)| <= |ms|
  {
    if ms != [] {
      DigestsAreDistinct(ms[..|ms| - 1]);
      assert ms == ms[..|ms| - 1] + [ms[|ms| - 1]];
      forall d ensures d in Digests(ms) <==> exists m :: m in ms && m.mail.blob == d {
        if d in Digests(ms) && d !in Digests(ms[..|ms| - 1]) {
          assert ms[|ms| - 1] in ms;
        }
      }
    }
  }

  method CollectDigests(ms: seq<ExportedMessage>) returns (blobs: seq<string>)
    ensures blobs == Digests(ms)
  {
    var seen: set<string> := {};
    blobs := [];
    for i := 0 to |ms|
      invariant blobs == Digests(ms[..i])
      invariant forall d :: d in seen <==> d in blobs
    {
      assert ms[..i + 1][..i] == ms[..i];
      var d := ms[i].mail.blob;
      if d !in seen {
        seen := seen + {d};
        blobs := blobs + [d];
      }
    }
    assert ms[..|ms|] == ms;
  }

  /** Keeps the wanted elements at the front of the same array, as `filtered := s[:0]` and `append` do. */
  method FilterInPlace<T>(a: array<T>, keep: T -> bool) returns (n: nat)
    modifies a
    ensures n <= a.Length
    ensures a[..n] == Filter(keep, old(a[..]))
  {
    n := 0;
    for i := 0 to a.Length
      invariant n <= i
      invariant a[..n] == Filter(keep, old(a[..])[..i])
      invariant a[i..] == old(a[..])[i..]
    {
      assert old(a[..])[..i + 1][..i] == old(a[..])[..i];
      assert a[i] == a[i..][0] == old(a[..])[i];
      if keep(a[i]) {
        a[n] := a[i];
        n := n + 1;
      }
    }
    assert old(a[..])[..a.Length] == old(a[..]);
  }

  datatype Export = Export(messages: seq<ExportedMessage>, attachments: seq<ExportedAttachment>, blobs: seq<string>)

  predicate BlobIsThere(files: map<string, string>, m: ExportedMessage) {
    MailStore.BlobPath(m.mail.blob) in files
  }

  predicate IsAttachedTo(ms: seq<ExportedMessage>, a: ExportedAttachment) {
    exists m :: m in ms && m.id == a.message
  }

  function Exported(files: map<string, string>, ms: seq<ExportedMessage>, atts: seq<ExportedAttachment>): Export {
    var kept := Filter(m => BlobIsThere(files, m), ms);
    Export(kept, if kept == ms then atts else Filter(a => IsAttachedTo(kept, a), atts), Digests(kept))
  }

  ghost predicate AreMissing(files: map<string, string>, blobs: seq<string>, missing: set<string>) {
    forall d :: d in missing <==> d in blobs && MailStore.BlobPath(d) !in files
  }

  lemma MissingMeans(files: map<string, string>, all: seq<ExportedMessage>, missing: set<string>)
    requires AreMissing(files, Digests(all), missing)
    ensures Filter((m: ExportedMessage) => m.mail.blob !in missing, all) ==
            Filter((m: ExportedMessage) => BlobIsThere(files, m), all)
    ensures missing == {} <==> Filter((m: ExportedMessage) => BlobIsThere(files, m), all) == all
  {
    hide Digests, Filter;
    var there := (m: ExportedMessage) => BlobIsThere(files, m);
    DigestsAreDistinct(all);
    FilterIsExact(there, all);
    forall m | m in all ensures m.mail.blob !in missing <==> there(m) {
      assert m.mail.blob in Digests(all);
    }
    FilterAgrees(all, (m: ExportedMessage) => m.mail.blob !in missing, there);
    if missing != {} {
      var d :| d in missing;
      var m :| m in all && m.mail.blob == d;
      assert m !in Filter(there, all);
    }
  }

  method FindMissing(files: map<string, string>, blobs: seq<string>) returns (missing: set<string>)
    ensures AreMissing(files, blobs, missing)
  {
    missing := {};
    for i := 0 to |blobs|
      invariant AreMissing(files, blobs[..i], missing)
    {
      if MailStore.BlobPath(blobs[i]) !in files {
        missing := missing + {blobs[i]};
      }
    }
    assert blobs[..|blobs|] == blobs;
  }

  /** `msgs` and `atts` are the rows fetched for the user; both are filtered only if some blob is missing. */
  method ExportRows(files: map<string, string>, msgs: array<ExportedMessage>, atts: array<ExportedAttachment>)
    returns (e: Export)
    modifies msgs, atts
    ensures e == Exported(files, old(msgs[..]), old(atts[..]))
  {
    hide Filter, Digests, BlobIsThere, AreMissing;
    var blobs := CollectDigests(msgs[..]);
    var missing := FindMissing(files, blobs);
    MissingMeans(files, msgs[..], missing);
    if |missing| == 0 {
      return Export(msgs[..], atts[..], blobs);
    }
    ghost var rows := atts[..];
    var n := FilterInPlace(msgs, (m: ExportedMessage) => m.mail.blob !in missing);
    var kept := msgs[..n];
    blobs := CollectDigests(kept);
    var included := set m | m in kept :: m.id;
    assert rows == atts[..];
    FilterAgrees(
      rows, (a: ExportedAttachment) => a.message in included, (a: ExportedAttachment) => IsAttachedTo(kept, a));
    var k := FilterInPlace(atts, (a: ExportedAttachment) => a.message in included);
    e := Export(kept, atts[..k], blobs);
  }

  lemma {:induction false} FilterAgrees<T>(s: seq<T>, p: T -> bool, q: T -> bool)
    requires forall x :: x in s ==> p(x) == q(x)
    ensures Filter(p, s) == Filter(q, s)
  {
    if s != [] {
      FilterAgrees(s[..|s| - 1], p, q);
    }
  }

  /** Blobs come after the documents that refer to them. */
  function BlobEntries(files: map<string, string>, blobs: seq<string>): seq<Entry> {
    if blobs == [] then []
    else
      var d := blobs[|blobs| - 1];
      var path := MailStore.BlobPath(d);
      BlobEntries(files, blobs[..|blobs| - 1]) + [Entry(BlobName(d), if path in files then files[path] else "")]
  }

  function BlobName(digest: string): string {
    "blobs/" + digest + ".eml"
  }

  function ManifestOf(fingerprint: string, e: Export, keys: seq<KnownKey>, rotations: seq<Rotation>,
                      drafts: seq<Draft>): Manifest
  {
    Manifest(SCHEMA_VERSION, fingerprint, |e.messages|, |e.blobs|, |keys|, |rotations|, |drafts|)
  }

  function Documents(env: Env, fingerprint: string, armored: string, e: Export, keys: seq<KnownKey>,
                     rotations: seq<Rotation>, drafts: seq<Draft>): seq<Entry>
  {
    [Entry("manifest.json", env.manifest.render(ManifestOf(fingerprint, e, keys, rotations, drafts))),
     Entry("public_key.asc", armored),
     Entry("known_keys.json", env.knownKeys.render(keys)),
     Entry("key_rotations.json", env.rotations.render(rotations)),
     Entry("drafts.json", env.drafts.render(drafts)),
     Entry("messages.json", env.messages.render(e.messages)),
     Entry("message_attachments.json", env.attachments.render(e.attachments))]
  }

  /** The rows an account has, as the export fetches them. */
  datatype Fetched = Fetched(messages: seq<ExportedMessage>, attachments: seq<ExportedAttachment>,
                             knownKeys: seq<KnownKey>, rotations: seq<Rotation>, drafts: seq<Draft>)

  function ArchiveOf(env: Env, files: map<string, string>, fp: string, armored: string, f: Fetched): seq<Entry> {
    var e := Exported(files, f.messages, f.attachments);
    Documents(env, fp, armored, e, f.knownKeys, f.rotations, f.drafts) + BlobEntries(files, e.blobs)
  }

  /** The archive is self-contained: its blobs are distinct and on disk, every exported message's blob is among them,
    * and every attachment belongs to an exported message. Only messages without their blob are left out. */
  lemma ExportIsClosed(files: map<string, string>, ms: seq<ExportedMessage>, atts: seq<ExportedAttachment>)
    requires forall a :: a in atts ==> exists m :: m in ms && m.id == a.message
    ensures var e := Exported(files, ms, atts);
      && (forall m :: m in e.messages <==> m in ms && MailStore.BlobPath(m.mail.blob) in files)
      && (forall i, j :: 0 <= i < j < |e.blobs| ==> e.blobs[i] != e.blobs[j])
      && (forall d :: d in e.blobs <==> exists m :: m in e.messages && m.mail.blob == d)
      && (forall d :: d in e.blobs ==> MailStore.BlobPath(d) in files)
      && (forall a :: a in e.attachments <==> a in atts && exists m :: m in e.messages && m.id == a.message)
  {
    hide Filter, Digests, MailStore.BlobPath;
    var there := (m: ExportedMessage) => BlobIsThere(files, m);
    var e := Exported(files, ms, atts);
    FilterIsExact(there, ms);
    DigestsAreDistinct(e.messages);
    FilterIsExact((a: ExportedAttachment) => IsAttachedTo(e.messages, a), atts);
    forall d | d in e.blobs ensures MailStore.BlobPath(d) in files {
      var m :| m in e.messages && m.mail.blob == d;
      assert BlobIsThere(files, m);
    }
  }

  datatype ExportError = ReadBlobFailed(digest: string)

  /** Documents first, blobs last. Reading a blob never fails: the messages whose blob is missing are left out. */
  method ExportUser(env: Env, files: map<string, string>, fp: string, armored: string,
                    msgs: array<ExportedMessage>, atts: array<ExportedAttachment>, keys: seq<KnownKey>,
                    rotations: seq<Rotation>, drafts: seq<Draft>) returns (r: Result<seq<Entry>, ExportError>)
    requires forall a :: a in atts[..] ==> exists m :: m in msgs[..] && m.id == a.message
    modifies msgs, atts
    ensures r == Ok(ArchiveOf(env, files, fp, armored, Fetched(old(msgs[..]), old(atts[..]), keys, rotations, drafts)))
  {
    hide Exported, Digests, Filter, IsAttachedTo;
    ExportIsClosed(files, msgs[..], atts[..]);
    var e := ExportRows(files, msgs, atts);
    var documents := Documents(env, fp, armored, e, keys, rotations, drafts);
    hide Documents;
    var entries := documents;
    for i := 0 to |e.blobs|
      invariant entries == documents + BlobEntries(files, e.blobs[..i])
    {
      assert e.blobs[..i + 1][..i] == e.blobs[..i];
      var digest := e.blobs[i];
      assert digest in e.blobs;
      var path := MailStore.BlobPath(digest);
      if path !in files {
        return Err(ReadBlobFailed(digest));
      }
      entries := entries + [Entry(BlobName(digest), files[path])];
    }
    assert e.blobs[..|e.blobs|] == e.blobs;
    return Ok(entries);
  }

  // ---------------------------------------------------------------- reading an archive

  datatype ImportError =
    | NoActiveKey | TooManyEntries | BadEntryName | ParseFailed | UnsupportedVersion | NotYourArchive
    | BadBlobName | HashMismatch | ManifestMissing

  /** The loop variables of the import, with the blobs written so far. */
  datatype Reading = Reading(count: nat, files: map<string, string>, blobs: nat, manifest: Option<Manifest>,
                             messages: seq<ExportedMessage>, attachments: seq<ExportedAttachment>,
                             knownKeys: seq<KnownKey>, rotations: seq<Rotation>, drafts: seq<Draft>)

  predicate ValidEntryName(name: string) {
    name != "" && name[0] != '/' && ".." !in GoText.Split(name, '/')
  }

  predicate IsBlobName(name: string) {
    |name| >= 10 && name[..6] == "blobs/" && name[|name| - 4..] == ".eml"
  }

  function ReadManifest(env: Env, fingerprint: string, r: Reading, data: string): Result<Reading, ImportError> {
    match env.manifest.parse(data)
    case None => Err(ParseFailed)
    case Some(m) =>
      if m.schemaVersion != SCHEMA_VERSION then Err(UnsupportedVersion)
      else if !GoText.EqualFold(m.keyFingerprint, fingerprint) then Err(NotYourArchive)
      else Ok(r.(manifest := Some(m)))
  }

  function ReadBlobEntry(env: Env, r: Reading, e: Entry): Result<Reading, ImportError>
    requires IsBlobName(e.name)
  {
    var digest := e.name[6..|e.name| - 4];
    if |digest| != MailStore.DIGEST_LENGTH then Err(BadBlobName)
    else if env.hash(e.data) != digest then Err(HashMismatch)
    else Ok(r.(files := MailStore.Written(env.hash, r.files, e.data), blobs := r.blobs + 1))
  }

  datatype Kind = ManifestJson | PublicKey | KnownKeysJson | RotationsJson | DraftsJson | MessagesJson
                | AttachmentsJson | Blob | Unknown

  function KindOf(name: string): (k: Kind)
    ensures k == Blob ==> IsBlobName(name)
  {
    if name == "manifest.json" then ManifestJson
    else if name == "public_key.asc" then PublicKey
    else if name == "known_keys.json" then KnownKeysJson
    else if name == "key_rotations.json" then RotationsJson
    else if name == "drafts.json" then DraftsJson
    else if name == "messages.json" then MessagesJson
    else if name == "message_attachments.json" then AttachmentsJson
    else if IsBlobName(name) then Blob
    else Unknown
  }

  function ReadContent(env: Env, fingerprint: string, r: Reading, e: Entry): Result<Reading, ImportError> {
    match KindOf(e.name)
    case ManifestJson => ReadManifest(env, fingerprint, r, e.data)
    case KnownKeysJson =>
      var x := env.knownKeys.parse(e.data);
      if x.None? then Err(ParseFailed) else Ok(r.(knownKeys := x.value))
    case RotationsJson =>
      var x := env.rotations.parse(e.data);
      if x.None? then Err(ParseFailed) else Ok(r.(rotations := x.value))
    case DraftsJson =>
      var x := env.drafts.parse(e.data);
      if x.None? then Err(ParseFailed) else Ok(r.(drafts := x.value))
    case MessagesJson =>
      var x := env.messages.parse(e.data);
      if x.None? then Err(ParseFailed) else Ok(r.(messages := x.value))
    case AttachmentsJson =>
      var x := env.attachments.parse(e.data);
      if x.None? then Err(ParseFailed) else Ok(r.(attachments := x.value))
    case Blob => ReadBlobEntry(env, r, e)
    case _ => Ok(r)
  }

  function ReadEntry(env: Env, fingerprint: string, r: Reading, e: Entry): Result<Reading, ImportError> {
    if r.count + 1 > MAX_TAR_ENTRIES then Err(TooManyEntries)
    else if !ValidEntryName(e.name) then Err(BadEntryName)
    else ReadContent(env, fingerprint, r.(count := r.count + 1), e)
  }

  /** Stops at the first bad entry; the blobs written before it stay. */
  function ReadAll(env: Env, fingerprint: string, r: Reading, es: seq<Entry>): (Reading, Option<ImportError>)
    decreases |es|
  {
    if es == [] then (r, None)
    else
      match ReadEntry(env, fingerprint, r, es[0])
      case Err(error) => (r, Some(error))
      case Ok(r') => ReadAll(env, fingerprint, r', es[1..])
  }

  function NothingRead(files: map<string, string>): Reading {
    Reading(0, files, 0, None, [], [], [], [], [])
  }

  // ---------------------------------------------------------------- inserting the rows

  /** A stored row stands for `m`: by Message-ID if `m` has one, else by blob and arrival time. */
  predicate Matches(stored: Mail, m: Mail) {
    if m.messageId.Some? && m.messageId.value != "" then stored.messageId == m.messageId
    else stored.blob == m.blob && stored.receivedAt == m.receivedAt
  }

  predicate Present(messages: map<nat, Mail>, m: Mail) {
    exists id :: id in messages && Matches(messages[id], m)
  }

  /** Message rows, the map from exported ids to new rows, and the two counters. */
  datatype Inserting = Inserting(messages: map<nat, Mail>, nextId: nat, ids: map<nat, nat>,
                                 imported: nat, skipped: nat)

  function InsertIfAbsent(t: Inserting, m: ExportedMessage): Inserting {
    if Present(t.messages, m.mail) then t.(skipped := t.skipped + 1)
    else Inserting(t.messages[t.nextId := m.mail], t.nextId + 1, t.ids[m.id := t.nextId], t.imported + 1, t.skipped)
  }

  function InsertAll(t: Inserting, ms: seq<ExportedMessage>): Inserting {
    if ms == [] then t else InsertIfAbsent(InsertAll(t, ms[..|ms| - 1]), ms[|ms| - 1])
  }

  /** Only for messages just inserted. */
  function Attach(rows: map<(nat, int), Attachment>, ids: map<nat, nat>, a: ExportedAttachment)
    : map<(nat, int), Attachment>
  {
    if a.message !in ids || (ids[a.message], a.part) in rows then rows
    else rows[(ids[a.message], a.part) := a.attachment]
  }

  function AttachAll(rows: map<(nat, int), Attachment>, ids: map<nat, nat>, atts: seq<ExportedAttachment>)
    : map<(nat, int), Attachment>
  {
    if atts == [] then rows else Attach(AttachAll(rows, ids, atts[..|atts| - 1]), ids, atts[|atts| - 1])
  }

  function Later(a: int, b: int): int {
    if a < b then b else a
  }

  function Upsert(keys: map<string, KnownKey>, k: KnownKey): map<string, KnownKey> {
    keys[k.fingerprint :=
      if k.fingerprint in keys then
        keys[k.fingerprint].(armored := k.armored, lastSeen := Later(keys[k.fingerprint].lastSeen, k.lastSeen))
      else k]
  }

  function UpsertAll(keys: map<string, KnownKey>, ks: seq<KnownKey>): map<string, KnownKey> {
    if ks == [] then keys else Upsert(UpsertAll(keys, ks[..|ks| - 1]), ks[|ks| - 1])
  }

  function AddRotation(rows: map<(string, string), Rotation>, r: Rotation): map<(string, string), Rotation> {
    if (r.oldFingerprint, r.newFingerprint) in rows then rows else rows[(r.oldFingerprint, r.newFingerprint) := r]
  }

  function AddRotations(rows: map<(string, string), Rotation>, rs: seq<Rotation>): map<(string, string), Rotation> {
    if rs == [] then rows else AddRotation(AddRotations(rows, rs[..|rs| - 1]), rs[|rs| - 1])
  }

  datatype Summary = Summary(messages: nat, blobs: nat, knownKeys: nat, rotations: nat, drafts: nat, skipped: nat)

  function RowsImported(box: Mailbox, r: Reading): (Mailbox, Summary) {
    var t := InsertAll(Inserting(box.messages, box.nextId, map[], 0, 0), r.messages);
    (Mailbox(t.messages, AttachAll(box.attachments, t.ids, r.attachments), UpsertAll(box.knownKeys, r.knownKeys),
             AddRotations(box.rotations, r.rotations), box.drafts + r.drafts, t.nextId),
     Summary(t.imported, r.blobs, |r.knownKeys|, |r.rotations|, |r.drafts|, t.skipped))
  }

  datatype Account = Account(files: map<string, string>, box: Mailbox)

  function Imported(env: Env, a: Account, activeKey: Option<string>, es: seq<Entry>)
    : (Account, Result<Summary, ImportError>)
  {
    match activeKey
    case None => (a, Err(NoActiveKey))
    case Some(fingerprint) =>
      match ReadAll(env, fingerprint, NothingRead(a.files), es)
      case (r, Some(error)) => (a.(files := r.files), Err(error))
      case (r, None) =>
        if r.manifest.None? then (a.(files := r.files), Err(ManifestMissing))
        else
          var (box, summary) := RowsImported(a.box, r);
          (Account(r.files, box), Ok(summary))
  }

  class Importer {
    const env: Env
    var files: map<string, string>
    var messages: map<nat, Mail>
    var attachments: map<(nat, int), Attachment>
    var knownKeys: map<string, KnownKey>
    var rotations: map<(string, string), Rotation>
    var drafts: seq<Draft>
    var nextId: nat

    function A(): Account
      reads this
    {
      Account(files, Mailbox(messages, attachments, knownKeys, rotations, drafts, nextId))
    }

    constructor (env: Env, a: Account)
      ensures this.env == env && A() == a
    {
      this.env := env;
      files, messages, attachments := a.files, a.box.messages, a.box.attachments;
      knownKeys, rotations, drafts, nextId := a.box.knownKeys, a.box.rotations, a.box.drafts, a.box.nextId;
    }

    /** Rows are held back until the blobs they refer to are on disk. */
    method ReadArchive(fingerprint: string, es: seq<Entry>) returns (r: Reading, failure: Option<ImportError>)
      modifies this`files
      ensures (r, failure) == ReadAll(env, fingerprint, NothingRead(old(files)), es)
      ensures files == r.files
    {
      r, failure := NothingRead(files), None;
      var i := 0;
      while i < |es|
        invariant i <= |es| && failure.None? && files == r.files
        invariant ReadAll(env, fingerprint, r, es[i..]) == ReadAll(env, fingerprint, NothingRead(old(files)), es)
      {
        assert es[i..][0] == es[i] && es[i..][1..] == es[i + 1..];
        var next := ReadEntry(env, fingerprint, r, es[i]);
        if next.Err? {
          return r, Some(next.error);
        }
        r := next.value;
        files := r.files;
        i := i + 1;
      }
    }

    method InsertMessages(ms: seq<ExportedMessage>) returns (ids: map<nat, nat>, imported: nat, skipped: nat)
      modifies this`messages, this`nextId
      ensures Inserting(messages, nextId, ids, imported, skipped) ==
              InsertAll(Inserting(old(messages), old(nextId), map[], 0, 0), ms)
    {
      ids, imported, skipped := map[], 0, 0;
      ghost var t0 := Inserting(messages, nextId, map[], 0, 0);
      for i := 0 to |ms|
        invariant Inserting(messages, nextId, ids, imported, skipped) == InsertAll(t0, ms[..i])
      {
        assert ms[..i + 1][..i] == ms[..i];
        if Present(messages, ms[i].mail) {
          skipped := skipped + 1;
        } else {
          messages := messages[nextId := ms[i].mail];
          ids := ids[ms[i].id := nextId];
          nextId := nextId + 1;
          imported := imported + 1;
        }
      }
      assert ms[..|ms|] == ms;
    }

    method InsertAttachments(ids: map<nat, nat>, atts: seq<ExportedAttachment>)
      modifies this`attachments
      ensures attachments == AttachAll(old(attachments), ids, atts)
    {
      for i := 0 to |atts|
        invariant attachments == AttachAll(old(attachments), ids, atts[..i])
      {
        assert atts[..i + 1][..i] == atts[..i];
        var a := atts[i];
        if a.message !in ids {
          continue;
        }
        if (ids[a.message], a.part) !in attachments {
          attachments := attachments[(ids[a.message], a.part) := a.attachment];
        }
      }
      assert atts[..|atts|] == atts;
    }

    method UpsertKnownKeys(ks: seq<KnownKey>)
      modifies this`knownKeys
      ensures knownKeys == UpsertAll(old(knownKeys), ks)
    {
      for i := 0 to |ks|
        invariant knownKeys == UpsertAll(old(knownKeys), ks[..i])
      {
        assert ks[..i + 1][..i] == ks[..i];
        knownKeys := Upsert(knownKeys, ks[i]);
      }
      assert ks[..|ks|] == ks;
    }

    method InsertRotations(rs: seq<Rotation>)
      modifies this`rotations
      ensures rotations == AddRotations(old(rotations), rs)
    {
      for i := 0 to |rs|
        invariant rotations == AddRotations(old(rotations), rs[..i])
      {
        assert rs[..i + 1][..i] == rs[..i];
        if (rs[i].oldFingerprint, rs[i].newFingerprint) !in rotations {
          rotations := rotations[(rs[i].oldFingerprint, rs[i].newFingerprint) := rs[i]];
        }
      }
      assert rs[..|rs|] == rs;
    }

    method AppendDrafts(ds: seq<Draft>)
      modifies this`drafts
      ensures drafts == old(drafts) + ds
    {
      for i := 0 to |ds|
        invariant drafts == old(drafts) + ds[..i]
      {
        drafts := drafts + [ds[i]];
      }
    }

    method ImportUser(activeKey: Option<string>, es: seq<Entry>) returns (r: Result<Summary, ImportError>)
      modifies this
      ensures (A(), r) == Imported(env, old(A()), activeKey, es)
    {
      hide ReadAll, InsertAll, AttachAll, UpsertAll, AddRotations;
      if activeKey.None? {
        return Err(NoActiveKey);
      }
      var read, failure := ReadArchive(activeKey.value, es);
      if failure.Some? {
        return Err(failure.value);
      }
      if read.manifest.None? {
        return Err(ManifestMissing);
      }
      var ids, imported, skipped := InsertMessages(read.messages);
      InsertAttachments(ids, read.attachments);
      UpsertKnownKeys(read.knownKeys);
      InsertRotations(read.rotations);
      AppendDrafts(read.drafts);
      return Ok(Summary(imported, read.blobs, |read.knownKeys|, |read.rotations|, |read.drafts|, skipped));
    }
  }
}
