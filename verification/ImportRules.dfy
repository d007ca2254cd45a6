/** What an import accepts and what it adds, in terms of the archive and the rows there before alone
  * (internal/archive/archive.go:266-500). */
module ImportRules {
  import opened Wrappers
  import GoText
  import MailStore
  import MailStoreRuns
  import opened Archive
  import opened ArchiveLaws

  // ---------------------------------------------------------------- which archives are accepted

  /** Some component of the path is `..`. */
  ghost predicate ClimbsUp(name: string) {
    exists i :: ClimbsUpAt(name, i)
  }

  ghost predicate ClimbsUpAt(name: string, i: nat) {
    && i + 2 <= |name| && name[i] == '.' && name[i + 1] == '.'
    && (i == 0 || name[i - 1] == '/') && (i + 2 == |name| || name[i + 2] == '/')
  }

  lemma {:induction false} ClimbsUpIff(name: string)
    ensures ClimbsUp(name) <==> ".." in GoText.Split(name, '/')
    decreases |name|
  {
    var cut := GoText.IndexByte(name, '/');
    if cut.None? {
      assert forall k :: 0 <= k < |name| ==> name[k] in name;
      if i: nat :| ClimbsUpAt(name, i) {
        assert name == "..";
      }
      if name == ".." {
        assert ClimbsUpAt(name, 0);
      }
    } else {
      ClimbsUpCut(name, cut.value);
      ClimbsUpIff(name[cut.value + 1..]);
    }
  }

  lemma ClimbsUpCut(name: string, k: nat)
    requires k < |name| && name[k] == '/' && '/' !in name[..k]
    ensures ClimbsUp(name) <==> name[..k] == ".." || ClimbsUp(name[k + 1..])
  {
    var rest := name[k + 1..];
    assert forall j :: 0 <= j < k ==> name[j] == name[..k][j] && name[j] != '/';
    if i: nat :| ClimbsUpAt(name, i) {
      if i < k {
        assert i == 0 && k == 2;
        assert name[..k] == "..";
      } else {
        assert ClimbsUpAt(rest, i - k - 1);
      }
    }
    if i: nat :| ClimbsUpAt(rest, i) {
      assert ClimbsUpAt(name, i + k + 1);
    }
    if name[..k] == ".." {
      assert ClimbsUpAt(name, 0);
    }
  }

  /** A manifest of this version for the importer's own active key. */
  ghost predicate OwnManifest(env: Env, fp: string, data: string) {
    && env.manifest.parse(data).Some?
    && env.manifest.parse(data).value.schemaVersion == 1
    && GoText.EqualFold(env.manifest.parse(data).value.keyFingerprint, fp)
  }

  ghost predicate NamedBlob(name: string) {
    |name| >= 10 && name[..6] == "blobs/" && name[|name| - 4..] == ".eml"
  }

  /** An entry that is read: a safe name, a document that parses, a blob under its own digest, or anything else. */
  ghost predicate Readable(env: Env, fp: string, e: Entry) {
    && e.name != "" && e.name[0] != '/' && !ClimbsUp(e.name)
    && (e.name == "manifest.json" ==> OwnManifest(env, fp, e.data))
    && (e.name == "known_keys.json" ==> env.knownKeys.parse(e.data).Some?)
    && (e.name == "key_rotations.json" ==> env.rotations.parse(e.data).Some?)
    && (e.name == "drafts.json" ==> env.drafts.parse(e.data).Some?)
    && (e.name == "messages.json" ==> env.messages.parse(e.data).Some?)
    && (e.name == "message_attachments.json" ==> env.attachments.parse(e.data).Some?)
    && (NamedBlob(e.name) ==> |e.name| == 74 && env.hash(e.data) == e.name[6..70])
  }

  lemma NoDocumentIsABlob(name: string)
    ensures IsBlobName(name) ==> KindOf(name) == Blob
  {
    if IsBlobName(name) {
      assert name[..6][5] == '/' && name[5] == '/';
      FifthLetters();
    }
  }

  lemma FifthLetters()
    ensures "manifest.json"[5] != '/' && "public_key.asc"[5] != '/' && "known_keys.json"[5] != '/'
    ensures "key_rotations.json"[5] != '/' && "drafts.json"[5] != '/' && "messages.json"[5] != '/'
    ensures "message_attachments.json"[5] != '/'
  {}

  lemma EntryIsReadIff(env: Env, fp: string, r: Reading, e: Entry)
    requires r.count < MAX_TAR_ENTRIES
    ensures ReadEntry(env, fp, r, e).Ok? <==> Readable(env, fp, e)
    ensures ReadEntry(env, fp, r, e).Ok? ==>
              var r' := ReadEntry(env, fp, r, e).value;
              && r'.count == r.count + 1
              && (r'.manifest.Some? <==> r.manifest.Some? || e.name == "manifest.json")
  {
    hide ClimbsUp, GoText.Split, GoText.EqualFold, MailStore.Written, KindOf;
    ClimbsUpIff(e.name);
    NoDocumentIsABlob(e.name);
    KindsOfDocuments(e.name);
  }

  /** The names of the documents, and only they, have the kinds of documents. */
  lemma KindsOfDocuments(name: string)
    ensures name == "manifest.json" <==> KindOf(name) == ManifestJson
    ensures name == "known_keys.json" <==> KindOf(name) == KnownKeysJson
    ensures name == "key_rotations.json" <==> KindOf(name) == RotationsJson
    ensures name == "drafts.json" <==> KindOf(name) == DraftsJson
    ensures name == "messages.json" <==> KindOf(name) == MessagesJson
    ensures name == "message_attachments.json" <==> KindOf(name) == AttachmentsJson
  {
    hide ValidEntryName, IsBlobName;
    DocumentNames();
  }

  lemma {:induction false} ArchiveIsReadIff(env: Env, fp: string, r: Reading, es: seq<Entry>)
    requires r.count <= MAX_TAR_ENTRIES
    ensures ReadAll(env, fp, r, es).1.None? <==>
            r.count + |es| <= MAX_TAR_ENTRIES && forall e :: e in es ==> Readable(env, fp, e)
    ensures ReadAll(env, fp, r, es).1.None? ==>
              (ReadAll(env, fp, r, es).0.manifest.Some? <==>
                r.manifest.Some? || exists e :: e in es && e.name == "manifest.json")
    decreases |es|
  {
    hide ReadEntry, Readable;
    if es != [] {
      assert es == [es[0]] + es[1..];
      if r.count < MAX_TAR_ENTRIES {
        EntryIsReadIff(env, fp, r, es[0]);
        if ReadEntry(env, fp, r, es[0]).Ok? {
          ArchiveIsReadIff(env, fp, ReadEntry(env, fp, r, es[0]).value, es[1..]);
        }
      } else {
        FullIsFull(env, fp, r, es[0]);
      }
    }
  }

  lemma FullIsFull(env: Env, fp: string, r: Reading, e: Entry)
    requires r.count == MAX_TAR_ENTRIES
    ensures ReadEntry(env, fp, r, e).Err?
  {}

  /** An import succeeds if and only if the account has an active key, the archive has at most a million entries, each
    * of them can be read, and one is a manifest. A failed one leaves all rows as they were. */
  lemma ImportIsAcceptedIff(env: Env, a: Account, key: Option<string>, es: seq<Entry>)
    ensures var (after, reply) := Imported(env, a, key, es);
      && (reply.Ok? <==>
            && key.Some? && |es| <= 1_000_000
            && (forall e :: e in es ==> Readable(env, key.value, e))
            && exists e :: e in es && e.name == "manifest.json")
      && (reply.Err? ==> after.box == a.box)
  {
    hide Readable, ReadAll, RowsImported;
    if key.Some? {
      ArchiveIsReadIff(env, key.value, NothingRead(a.files), es);
    }
  }

  /** Whatever the archive holds and however far it is read, blobs on disk stay intact. */
  lemma {:induction false} ReadingKeepsFiles(env: Env, fp: string, r: Reading, es: seq<Entry>)
    requires MailStore.HashOk(env.hash) && MailStore.FilesOk(env.hash, r.files)
    ensures MailStore.FilesOk(env.hash, ReadAll(env, fp, r, es).0.files)
    decreases |es|
  {
    hide MailStore.FilesOk, MailStore.Written, KindOf, ValidEntryName, IsBlobName;
    if es != [] {
      MailStoreRuns.WriteKeepsFiles(env.hash, r.files, es[0].data);
      if ReadEntry(env, fp, r, es[0]).Ok? {
        ReadingKeepsFiles(env, fp, ReadEntry(env, fp, r, es[0]).value, es[1..]);
      }
    }
  }

  lemma ImportKeepsFilesIntact(env: Env, a: Account, key: Option<string>, es: seq<Entry>)
    requires MailStore.HashOk(env.hash) && MailStore.FilesOk(env.hash, a.files)
    ensures MailStore.FilesOk(env.hash, Imported(env, a, key, es).0.files)
  {
    hide MailStore.FilesOk, ReadAll, RowsImported;
    if key.Some? {
      ReadingKeepsFiles(env, key.value, NothingRead(a.files), es);
    }
  }

  // ---------------------------------------------------------------- the documents of an archive

  /** What the last document of that name says. */
  function DocumentIn<T>(c: Codec<seq<T>>, name: string, es: seq<Entry>): seq<T> {
    if es == [] then []
    else
      var last := es[|es| - 1];
      if last.name == name && c.parse(last.data).Some? then c.parse(last.data).value
      else DocumentIn(c, name, es[..|es| - 1])
  }

  lemma {:induction false} ReadSnoc(env: Env, fp: string, r: Reading, es: seq<Entry>, e: Entry)
    requires ReadAll(env, fp, r, es + [e]).1.None?
    ensures ReadAll(env, fp, r, es).1.None?
    ensures ReadEntry(env, fp, ReadAll(env, fp, r, es).0, e) == Ok(ReadAll(env, fp, r, es + [e]).0)
    decreases |es|
  {
    hide ReadEntry;
    if es == [] {
      assert [] + [e] == [e] && [e][1..] == [];
    } else {
      assert (es + [e])[1..] == es[1..] + [e];
      ReadSnoc(env, fp, ReadEntry(env, fp, r, es[0]).value, es[1..], e);
    }
  }

  ghost predicate DocumentsAre(env: Env, es: seq<Entry>, r: Reading) {
    && r.messages == DocumentIn(env.messages, "messages.json", es)
    && r.attachments == DocumentIn(env.attachments, "message_attachments.json", es)
    && r.knownKeys == DocumentIn(env.knownKeys, "known_keys.json", es)
    && r.rotations == DocumentIn(env.rotations, "key_rotations.json", es)
    && r.drafts == DocumentIn(env.drafts, "drafts.json", es)
  }

  lemma {:induction false} DocumentsAreRead(env: Env, fp: string, files: map<string, string>, es: seq<Entry>)
    requires ReadAll(env, fp, NothingRead(files), es).1.None?
    ensures DocumentsAre(env, es, ReadAll(env, fp, NothingRead(files), es).0)
    decreases |es|
  {
    hide ReadEntry;
    if es != [] {
      var init, e := es[..|es| - 1], es[|es| - 1];
      assert es == init + [e];
      ReadSnoc(env, fp, NothingRead(files), init, e);
      DocumentsAreRead(env, fp, files, init);
      OneDocument(env, fp, ReadAll(env, fp, NothingRead(files), init).0, init, e);
    }
  }

  lemma OneDocument(env: Env, fp: string, r: Reading, es: seq<Entry>, e: Entry)
    requires DocumentsAre(env, es, r) && ReadEntry(env, fp, r, e).Ok?
    ensures DocumentsAre(env, es + [e], ReadEntry(env, fp, r, e).value)
  {
    hide KindOf, ValidEntryName, IsBlobName, MailStore.Written, GoText.EqualFold, DocumentIn;
    DocumentOneMore(env.messages, "messages.json", es, e);
    DocumentOneMore(env.attachments, "message_attachments.json", es, e);
    DocumentOneMore(env.knownKeys, "known_keys.json", es, e);
    DocumentOneMore(env.rotations, "key_rotations.json", es, e);
    DocumentOneMore(env.drafts, "drafts.json", es, e);
    KindsOfDocuments(e.name);
  }

  lemma DocumentOneMore<T>(c: Codec<seq<T>>, name: string, es: seq<Entry>, e: Entry)
    ensures DocumentIn(c, name, es + [e]) ==
            if e.name == name && c.parse(e.data).Some? then c.parse(e.data).value else DocumentIn(c, name, es)
  {
    assert (es + [e])[..|es|] == es;
  }

  // ---------------------------------------------------------------- which messages are added

  /** A message with a Message-ID is known by it; one without (or with an empty one) by its contents and arrival. */
  ghost predicate Doubles(x: Mail, m: Mail) {
    || (x.messageId == m.messageId && m.messageId != None && m.messageId != Some(""))
    || (m.messageId in {None, Some("")} && x.blob == m.blob && x.receivedAt == m.receivedAt)
  }

  /** `sel` are the positions of the messages added: those that double neither a row there before nor a message added
    * earlier from the archive. */
  ghost predicate Selects(before: map<nat, Mail>, ms: seq<ExportedMessage>, sel: seq<nat>) {
    && (forall k, l :: 0 <= k < l < |sel| ==> sel[k] < sel[l])
    && (forall k :: 0 <= k < |sel| ==> sel[k] < |ms|)
    && forall i :: 0 <= i < |ms| ==> (i in sel <==> New(before, ms, sel, i))
  }

  ghost predicate New(before: map<nat, Mail>, ms: seq<ExportedMessage>, sel: seq<nat>, i: nat)
    requires i < |ms|
  {
    && (forall id :: id in before ==> !Doubles(before[id], ms[i].mail))
    && forall j :: j in sel && j < i && j < |ms| ==> !Doubles(ms[j].mail, ms[i].mail)
  }

  /** The rows are the ones before and the selected messages, in order, with every field. */
  ghost predicate Adds(
    before: map<nat, Mail>, base: nat, ms: seq<ExportedMessage>, sel: seq<nat>, after: map<nat, Mail>)
  {
    && (forall id :: id in after <==> id in before || base <= id < base + |sel|)
    && (forall id :: id in before ==> after[id] == before[id])
    && (forall k :: 0 <= k < |sel| && sel[k] < |ms| ==> after[base + k] == ms[sel[k]].mail)
  }

  lemma PresentIffDoubled(
    before: map<nat, Mail>, base: nat, ms: seq<ExportedMessage>, sel: seq<nat>, now: map<nat, Mail>, m: Mail)
    requires FreshIds(before, base) && Adds(before, base, ms, sel, now)
    requires forall k :: 0 <= k < |sel| ==> sel[k] < |ms|
    ensures Present(now, m) <==>
            (exists id :: id in before && Doubles(before[id], m))
            || (exists j :: j in sel && j < |ms| && Doubles(ms[j].mail, m))
  {
    if Present(now, m) {
      var id :| id in now && Matches(now[id], m);
      if id in before {
        assert Doubles(before[id], m);
      } else {
        var k := id - base;
        assert sel[k] in sel && Doubles(ms[sel[k]].mail, m);
      }
    }
    if id :| id in before && Doubles(before[id], m) {
      assert id in now && Matches(now[id], m);
    }
    if j :| j in sel && j < |ms| && Doubles(ms[j].mail, m) {
      var k :| 0 <= k < |sel| && sel[k] == j;
      assert base + k in now && Matches(now[base + k], m);
    }
  }

  lemma SelectOneMore(before: map<nat, Mail>, ms: seq<ExportedMessage>, m: ExportedMessage, sel: seq<nat>)
    requires Selects(before, ms, sel)
    ensures New(before, ms + [m], sel, |ms|) ==> Selects(before, ms + [m], sel + [|ms|])
    ensures !New(before, ms + [m], sel, |ms|) ==> Selects(before, ms + [m], sel)
  {
    hide Doubles;
    var all, more := ms + [m], sel + [|ms|];
    forall i | 0 <= i < |ms|
      ensures New(before, all, more, i) == New(before, ms, sel, i)
      ensures New(before, all, sel, i) == New(before, ms, sel, i)
    {
      assert all[i] == ms[i];
      assert forall j :: j in more && j < i ==> j in sel && all[j] == ms[j];
      assert forall j :: j in sel ==> j in more;
      assert forall j :: j in sel && j < i ==> all[j] == ms[j];
    }
    assert New(before, all, more, |ms|) == New(before, all, sel, |ms|) by {
      assert forall j :: j in more && j < |ms| ==> j in sel;
      assert forall j :: j in sel ==> j in more;
    }
    assert |ms| !in sel;
  }

  lemma AddOneMore(
    before: map<nat, Mail>, base: nat, ms: seq<ExportedMessage>, m: ExportedMessage, sel: seq<nat>, now: map<nat, Mail>)
    requires FreshIds(before, base) && Adds(before, base, ms, sel, now) && forall k :: 0 <= k < |sel| ==> sel[k] < |ms|
    ensures Adds(before, base, ms + [m], sel, now)
    ensures Adds(before, base, ms + [m], sel + [|ms|], now[base + |sel| := m.mail])
  {}

  lemma {:induction false} InsertionSelects(t: Inserting, ms: seq<ExportedMessage>) returns (sel: seq<nat>)
    requires FreshIds(t.messages, t.nextId)
    ensures var u := InsertAll(t, ms);
      && Selects(t.messages, ms, sel) && Adds(t.messages, t.nextId, ms, sel, u.messages)
      && u.nextId == t.nextId + |sel| && u.imported == t.imported + |sel| && u.skipped == t.skipped + |ms| - |sel|
  {
    hide FreshIds, Present, Doubles;
    if ms == [] {
      sel := [];
    } else {
      var init, m := ms[..|ms| - 1], ms[|ms| - 1];
      assert ms == init + [m];
      sel := InsertionSelects(t, init);
      var v := InsertAll(t, init);
      hide InsertAll, Adds, Selects;
      SelectOneMore(t.messages, init, m, sel);
      AddOneMore(t.messages, t.nextId, init, m, sel, v.messages) by { InRange(t.messages, init, sel); }
      PresentIsNew(t.messages, t.nextId, init, m, sel, v.messages);
      assert InsertAll(t, ms) == InsertIfAbsent(v, m) by { LastInserted(t, ms); }
      if !Present(v.messages, m.mail) {
        sel := sel + [|init|];
      }
    }
  }

  lemma LastInserted(t: Inserting, ms: seq<ExportedMessage>)
    requires ms != []
    ensures InsertAll(t, ms) == InsertIfAbsent(InsertAll(t, ms[..|ms| - 1]), ms[|ms| - 1])
  {}

  lemma InRange(before: map<nat, Mail>, ms: seq<ExportedMessage>, sel: seq<nat>)
    requires Selects(before, ms, sel)
    ensures forall k :: 0 <= k < |sel| ==> sel[k] < |ms|
    ensures |sel| <= |ms|
  {
    if |sel| > 0 {
      Increasing(sel, |sel| - 1);
    }
  }

  lemma {:induction false} Increasing(sel: seq<nat>, k: nat)
    requires k < |sel| && forall i, j :: 0 <= i < j < |sel| ==> sel[i] < sel[j]
    ensures k <= sel[k]
  {
    if k > 0 {
      Increasing(sel, k - 1);
    }
  }

  lemma PresentIsNew(
    before: map<nat, Mail>, base: nat, ms: seq<ExportedMessage>, m: ExportedMessage, sel: seq<nat>, now: map<nat, Mail>)
    requires FreshIds(before, base) && Selects(before, ms, sel) && Adds(before, base, ms, sel, now)
    ensures Present(now, m.mail) <==> !New(before, ms + [m], sel, |ms|)
  {
    hide Present, Doubles, FreshIds, Adds;
    InRange(before, ms, sel);
    PresentIffDoubled(before, base, ms, sel, now, m.mail);
    assert forall j :: j in sel ==> j < |ms| && (ms + [m])[j] == ms[j];
    assert (ms + [m])[|ms|] == m;
  }

  /** The message list of an accepted archive: a message is left out exactly when a row there before, or an earlier
    * message that was added, has the same non-empty Message-ID or, for one without, the same blob and arrival time. The
    * others are added in order, and the summary counts both. */
  lemma ImportedMessagesAreExact(env: Env, a: Account, key: Option<string>, es: seq<Entry>) returns (sel: seq<nat>)
    requires FreshIds(a.box.messages, a.box.nextId) && Imported(env, a, key, es).1.Ok?
    ensures var (after, reply) := Imported(env, a, key, es);
      var ms := DocumentIn(env.messages, "messages.json", es);
      && Selects(a.box.messages, ms, sel)
      && Adds(a.box.messages, a.box.nextId, ms, sel, after.box.messages)
      && reply.value.messages == |sel| && reply.value.skipped == |ms| - |sel|
  {
    hide FreshIds, InsertAll, ReadAll, DocumentIn, AttachAll, UpsertAll, AddRotations, Adds, Selects;
    DocumentsAreRead(env, key.value, a.files, es);
    var ms := DocumentIn(env.messages, "messages.json", es);
    sel := InsertionSelects(Inserting(a.box.messages, a.box.nextId, map[], 0, 0), ms);
    InRange(a.box.messages, ms, sel);
  }

  /** So into an empty mailbox all messages arrive that differ from each earlier one in the Message-ID, or where they
    * have none, in the blob or the time. */
  lemma DistinctMailArrives(env: Env, a: Account, key: Option<string>, es: seq<Entry>)
    requires a.box.messages == map[] && Imported(env, a, key, es).1.Ok?
    requires var ms := DocumentIn(env.messages, "messages.json", es);
             forall i, j :: 0 <= i < j < |ms| ==>
               if ms[j].mail.messageId in {None, Some("")} then
                 ms[i].mail.blob != ms[j].mail.blob || ms[i].mail.receivedAt != ms[j].mail.receivedAt
               else ms[i].mail.messageId != ms[j].mail.messageId
    ensures Imported(env, a, key, es).1.value.messages == |DocumentIn(env.messages, "messages.json", es)|
    ensures forall m :: m in DocumentIn(env.messages, "messages.json", es) ==>
              exists id :: id in Imported(env, a, key, es).0.box.messages
                && Imported(env, a, key, es).0.box.messages[id] == m.mail
  {
    hide Imported, DocumentIn;
    var sel := ImportedMessagesAreExact(env, a, key, es);
    var ms, after := DocumentIn(env.messages, "messages.json", es), Imported(env, a, key, es).0.box.messages;
    forall i | 0 <= i < |ms| ensures i in sel {
      assert New(a.box.messages, ms, sel, i);
    }
    AllSelected(sel, |ms|);
    forall m | m in ms ensures exists id :: id in after && after[id] == m.mail {
      var i :| 0 <= i < |ms| && ms[i] == m;
      assert i in sel;
      var k :| 0 <= k < |sel| && sel[k] == i;
      assert a.box.nextId + k in after && after[a.box.nextId + k] == m.mail;
    }
  }

  lemma AllSelected(sel: seq<nat>, n: nat)
    requires forall i, j :: 0 <= i < j < |sel| ==> sel[i] < sel[j]
    requires forall k :: 0 <= k < |sel| ==> sel[k] < n
    requires forall i :: 0 <= i < n ==> i in sel
    ensures |sel| == n
  {
    if |sel| > 0 {
      Increasing(sel, |sel| - 1);
    }
    if |sel| < n {
      assert |sel| in sel;
      NoneMissing(sel, |sel|);
    }
  }

  lemma {:induction false} NoneMissing(sel: seq<nat>, k: nat)
    requires forall i, j :: 0 <= i < j < |sel| ==> sel[i] < sel[j]
    requires k <= |sel| && forall i :: 0 <= i <= |sel| ==> i in sel
    ensures forall i :: 0 <= i < k ==> sel[i] == i
  {
    if k > 0 {
      NoneMissing(sel, k - 1);
      assert k - 1 in sel;
      var x :| 0 <= x < |sel| && sel[x] == k - 1;
      Increasing(sel, k - 1);
    }
  }

  // ---------------------------------------------------------------- known keys and rotations

  ghost predicate LastOf(ks: seq<KnownKey>, fp: string, i: nat) {
    i < |ks| && ks[i].fingerprint == fp && forall j :: i < j < |ks| ==> ks[j].fingerprint != fp
  }

  ghost predicate FirstOf(ks: seq<KnownKey>, fp: string, i: nat) {
    i < |ks| && ks[i].fingerprint == fp && forall j :: 0 <= j < i ==> ks[j].fingerprint != fp
  }

  ghost predicate Lists(ks: seq<KnownKey>, fp: string) {
    exists k :: k in ks && k.fingerprint == fp
  }

  /** The text of a known key after an import is the one listed last. */
  ghost predicate TextMerged(before: map<string, KnownKey>, ks: seq<KnownKey>, fp: string, k: KnownKey) {
    && (!Lists(ks, fp) ==> fp in before && k.armored == before[fp].armored)
    && forall i: nat :: LastOf(ks, fp, i) ==> k.armored == ks[i].armored
  }

  /** The time it was last seen is the latest of all. */
  ghost predicate SeenMerged(before: map<string, KnownKey>, ks: seq<KnownKey>, fp: string, k: KnownKey) {
    && (fp in before ==> before[fp].lastSeen <= k.lastSeen)
    && (forall x :: x in ks && x.fingerprint == fp ==> x.lastSeen <= k.lastSeen)
    && ((fp in before && k.lastSeen == before[fp].lastSeen)
        || exists x :: x in ks && x.fingerprint == fp && k.lastSeen == x.lastSeen)
  }

  /** The rest is as it was before or, for a new key, as it is listed first. */
  ghost predicate OriginMerged(before: map<string, KnownKey>, ks: seq<KnownKey>, fp: string, k: KnownKey) {
    && (fp in before ==> k == before[fp].(armored := k.armored, lastSeen := k.lastSeen))
    && (fp !in before ==> Lists(ks, fp) && forall i: nat :: FirstOf(ks, fp, i) ==>
          k == ks[i].(armored := k.armored, lastSeen := k.lastSeen))
  }

  ghost predicate KeyMerged(
    before: map<string, KnownKey>, ks: seq<KnownKey>, fp: string, after: map<string, KnownKey>)
  {
    && (fp in after <==> fp in before || Lists(ks, fp))
    && (fp in after ==>
          TextMerged(before, ks, fp, after[fp]) && SeenMerged(before, ks, fp, after[fp])
          && OriginMerged(before, ks, fp, after[fp]))
  }

  lemma ListsOneMore(ks: seq<KnownKey>, k: KnownKey, fp: string)
    ensures Lists(ks + [k], fp) <==> Lists(ks, fp) || k.fingerprint == fp
    ensures forall i: nat :: LastOf(ks + [k], fp, i) <==>
              if k.fingerprint == fp then i == |ks| else LastOf(ks, fp, i)
    ensures forall i: nat :: FirstOf(ks + [k], fp, i) <==>
              FirstOf(ks, fp, i) || (i == |ks| && k.fingerprint == fp && !Lists(ks, fp))
  {
    var all := ks + [k];
    assert all[|ks|] == k && forall j :: 0 <= j < |ks| ==> all[j] == ks[j];
    assert k in all && forall x :: x in ks ==> x in all;
    assert forall j :: 0 <= j < |ks| ==> ks[j] in ks;
  }

  lemma MergeOneMore(
    before: map<string, KnownKey>, ks: seq<KnownKey>, k: KnownKey, fp: string, now: map<string, KnownKey>)
    requires KeyMerged(before, ks, fp, now)
    ensures KeyMerged(before, ks + [k], fp, Upsert(now, k))
  {
    hide Lists, LastOf, FirstOf;
    ListsOneMore(ks, k, fp);
    var after := Upsert(now, k);
    if fp in after {
      SeenOneMore(before, ks, k, fp, now);
      assert forall i: nat :: LastOf(ks + [k], fp, i) && i < |ks| ==> (ks + [k])[i] == ks[i];
      assert forall i: nat :: FirstOf(ks, fp, i) ==> i < |ks| && (ks + [k])[i] == ks[i] by {
        FirstIsInside(ks, fp);
      }
      FirstIsInside(ks, fp);
    }
  }

  lemma FirstIsInside(ks: seq<KnownKey>, fp: string)
    ensures forall i: nat :: FirstOf(ks, fp, i) || LastOf(ks, fp, i) ==> i < |ks| && Lists(ks, fp)
  {}

  lemma SeenOneMore(
    before: map<string, KnownKey>, ks: seq<KnownKey>, k: KnownKey, fp: string, now: map<string, KnownKey>)
    requires KeyMerged(before, ks, fp, now) && fp in Upsert(now, k)
    ensures SeenMerged(before, ks + [k], fp, Upsert(now, k)[fp])
  {
    hide TextMerged, OriginMerged;
    var all, after := ks + [k], Upsert(now, k);
    assert forall x :: x in all <==> x in ks || x == k;
  }

  lemma {:induction false} KeysAreMerged(before: map<string, KnownKey>, ks: seq<KnownKey>, fp: string)
    ensures KeyMerged(before, ks, fp, UpsertAll(before, ks))
  {
    hide KeyMerged, Upsert;
    if ks == [] {
      NothingMerged(before, fp);
    } else {
      var init, k := ks[..|ks| - 1], ks[|ks| - 1];
      assert ks == init + [k];
      KeysAreMerged(before, init, fp);
      MergeOneMore(before, init, k, fp, UpsertAll(before, init));
    }
  }

  lemma NothingMerged(before: map<string, KnownKey>, fp: string)
    ensures KeyMerged(before, [], fp, before)
  {}

  ghost predicate FirstRotation(rs: seq<Rotation>, key: (string, string), i: nat) {
    && i < |rs| && (rs[i].oldFingerprint, rs[i].newFingerprint) == key
    && forall j :: 0 <= j < i ==> (rs[j].oldFingerprint, rs[j].newFingerprint) != key
  }

  /** A rotation there before stays as it was; of those listed for two keys the first is added. */
  ghost predicate RotationMerged(before: map<(string, string), Rotation>, rs: seq<Rotation>, key: (string, string),
                                 after: map<(string, string), Rotation>)
  {
    && (key in after <==> key in before || exists r :: r in rs && (r.oldFingerprint, r.newFingerprint) == key)
    && (key in before ==> key in after && after[key] == before[key])
    && (key !in before ==>
          forall i: nat :: FirstRotation(rs, key, i) ==> key in after && after[key] == rs[i])
  }

  lemma {:induction false} RotationsAreMerged(
    before: map<(string, string), Rotation>, rs: seq<Rotation>, key: (string, string))
    ensures RotationMerged(before, rs, key, AddRotations(before, rs))
  {
    if rs != [] {
      var init, r := rs[..|rs| - 1], rs[|rs| - 1];
      assert rs == init + [r];
      RotationsAreMerged(before, init, key);
      forall i: nat | FirstRotation(rs, key, i) && key !in before
        ensures key in AddRotations(before, rs) && AddRotations(before, rs)[key] == rs[i]
      {
        assert forall j :: 0 <= j < |init| ==> init[j] == rs[j];
        if i < |init| {
          assert FirstRotation(init, key, i);
        } else {
          assert forall x :: x in init ==> (x.oldFingerprint, x.newFingerprint) != key;
        }
      }
    }
  }

  // ---------------------------------------------------------------- attachment rows

  /** The numbers the added messages got. */
  ghost predicate Numbered(ids: map<nat, nat>, base: nat, ms: seq<ExportedMessage>, sel: seq<nat>) {
    && (forall k :: 0 <= k < |sel| && sel[k] < |ms| ==> ms[sel[k]].id in ids && ids[ms[sel[k]].id] == base + k)
    && (forall x :: x in ids ==> HasNumber(ids, base, ms, sel, x))
  }

  ghost predicate HasNumber(ids: map<nat, nat>, base: nat, ms: seq<ExportedMessage>, sel: seq<nat>, x: nat) {
    exists k :: 0 <= k < |sel| && sel[k] < |ms| && ms[sel[k]].id == x
  }

  lemma {:induction false} InsertionNumbers(t: Inserting, ms: seq<ExportedMessage>, sel: seq<nat>)
    requires FreshIds(t.messages, t.nextId) && DistinctIds(ms) && t.ids == map[]
    requires Selects(t.messages, ms, sel)
    ensures Numbered(InsertAll(t, ms).ids, t.nextId, ms, sel)
  {
    hide FreshIds, Present, Doubles, InsertAll, Adds, Numbered, DistinctIds, New;
    if ms != [] {
      var init, m := ms[..|ms| - 1], ms[|ms| - 1];
      assert ms == init + [m];
      var s := InsertionSelects(t, init);
      DistinctIdsInOneMore(init, m);
      InsertionNumbers(t, init, s);
      var v := InsertAll(t, init);
      LastInserted(t, ms);
      PresentIsNew(t.messages, t.nextId, init, m, s, v.messages);
      NextNumber(t.messages, t.nextId, init, m, s, sel, v.ids, Present(v.messages, m.mail));
    } else {
      NothingNumbered(t, sel);
    }
  }

  lemma NothingNumbered(t: Inserting, sel: seq<nat>)
    requires t.ids == map[] && Selects(t.messages, [], sel)
    ensures Numbered(InsertAll(t, []).ids, t.nextId, [], sel)
  {
    InRange(t.messages, [], sel);
  }

  lemma NextNumber(
    before: map<nat, Mail>, base: nat, ms: seq<ExportedMessage>, m: ExportedMessage, s: seq<nat>, sel: seq<nat>,
    ids: map<nat, nat>, present: bool)
    requires Selects(before, ms, s) && Selects(before, ms + [m], sel) && Numbered(ids, base, ms, s)
    requires present <==> !New(before, ms + [m], s, |ms|)
    requires forall x :: x in ms ==> x.id != m.id
    ensures Numbered(if present then ids else ids[m.id := base + |s|], base, ms + [m], sel)
  {
    hide Numbered, Selects, New;
    SelectOneMore(before, ms, m, s);
    InRange(before, ms, s);
    if present {
      SelectionIsUnique(before, ms + [m], sel, s);
      NumberedLonger(ids, base, ms, m, s);
    } else {
      SelectionIsUnique(before, ms + [m], sel, s + [|ms|]);
      NumberOneMore(ids, base, ms, m, s);
    }
  }

  lemma NumberedLonger(ids: map<nat, nat>, base: nat, ms: seq<ExportedMessage>, m: ExportedMessage, sel: seq<nat>)
    requires Numbered(ids, base, ms, sel) && forall k :: 0 <= k < |sel| ==> sel[k] < |ms|
    ensures Numbered(ids, base, ms + [m], sel)
  {
    forall x | x in ids ensures HasNumber(ids, base, ms + [m], sel, x) {
      assert HasNumber(ids, base, ms, sel, x);
      var k :| 0 <= k < |sel| && sel[k] < |ms| && ms[sel[k]].id == x;
      assert (ms + [m])[sel[k]].id == x;
    }
  }

  lemma NumberOneMore(ids: map<nat, nat>, base: nat, ms: seq<ExportedMessage>, m: ExportedMessage, sel: seq<nat>)
    requires Numbered(ids, base, ms, sel) && (forall x :: x in ms ==> x.id != m.id)
    requires forall k :: 0 <= k < |sel| ==> sel[k] < |ms|
    ensures Numbered(ids[m.id := base + |sel|], base, ms + [m], sel + [|ms|])
  {
    var all, more, ids' := ms + [m], sel + [|ms|], ids[m.id := base + |sel|];
    forall k | 0 <= k < |more| ensures all[more[k]].id in ids' && ids'[all[more[k]].id] == base + k {
      if k < |sel| {
        assert all[more[k]] == ms[sel[k]] && ms[sel[k]] in ms;
      }
    }
    forall x | x in ids' ensures HasNumber(ids', base, all, more, x) {
      if x == m.id {
        assert more[|sel|] == |ms| && all[|ms|].id == x;
      } else {
        assert HasNumber(ids, base, ms, sel, x);
        var k :| 0 <= k < |sel| && sel[k] < |ms| && ms[sel[k]].id == x;
        assert more[k] == sel[k] && all[more[k]].id == x;
      }
    }
  }

  /** The condition determines which messages are added. */
  lemma SelectionIsUnique(before: map<nat, Mail>, ms: seq<ExportedMessage>, a: seq<nat>, b: seq<nat>)
    requires Selects(before, ms, a) && Selects(before, ms, b)
    ensures a == b
  {
    hide Doubles;
    InRange(before, ms, a);
    InRange(before, ms, b);
    forall i: nat | i < |ms| ensures i in a <==> i in b {
      SameSelected(before, ms, a, b, i);
    }
    hide Selects;
    SameElements(before, ms, a, b);
  }

  lemma {:induction false} SameSelected(
    before: map<nat, Mail>, ms: seq<ExportedMessage>, a: seq<nat>, b: seq<nat>, i: nat)
    requires Selects(before, ms, a) && Selects(before, ms, b) && i < |ms|
    ensures i in a <==> i in b
    decreases i
  {
    hide Doubles;
    forall j: nat | j < i ensures j in a <==> j in b {
      SameSelected(before, ms, a, b, j);
    }
    assert New(before, ms, a, i) <==> New(before, ms, b, i);
  }

  lemma SameElements(before: map<nat, Mail>, ms: seq<ExportedMessage>, a: seq<nat>, b: seq<nat>)
    requires Selects(before, ms, a) && Selects(before, ms, b) && forall i: nat :: i < |ms| ==> (i in a <==> i in b)
    ensures a == b
  {
    hide New;
    InRange(before, ms, a);
    InRange(before, ms, b);
    SortedEqual(a, b);
  }

  lemma FirstElement(b: seq<nat>)
    requires b != []
    ensures b[0] in b
  {}

  lemma {:induction false} SortedEqual(a: seq<nat>, b: seq<nat>)
    requires (forall k, l :: 0 <= k < l < |a| ==> a[k] < a[l]) && (forall k, l :: 0 <= k < l < |b| ==> b[k] < b[l])
    requires forall i :: i in a <==> i in b
    ensures a == b
    decreases |a|
  {
    if a == [] {
      if b != [] {
        FirstElement(b);
      }
    } else {
      assert a[0] in b && b != [];
      assert b[0] in a;
      forall i ensures i in a[1..] <==> i in b[1..] {
        assert i in a[1..] <==> i in a && i != a[0];
        assert i in b[1..] <==> i in b && i != b[0];
      }
      SortedEqual(a[1..], b[1..]);
    }
  }

  /** Listed for this message and part, and nothing before it is. */
  ghost predicate FirstListed(atts: seq<ExportedAttachment>, message: nat, part: int, i: nat) {
    && i < |atts| && atts[i].message == message && atts[i].part == part
    && forall j :: 0 <= j < i ==> !(atts[j].message == message && atts[j].part == part)
  }

  ghost predicate IsListed(atts: seq<ExportedAttachment>, message: nat, part: int) {
    exists i: nat :: FirstListed(atts, message, part, i)
  }

  lemma {:induction false} ListedIff(atts: seq<ExportedAttachment>, message: nat, part: int)
    ensures IsListed(atts, message, part) <==> exists a :: a in atts && a.message == message && a.part == part
  {
    if atts != [] {
      var init, last := atts[..|atts| - 1], atts[|atts| - 1];
      assert atts == init + [last];
      ListedIff(init, message, part);
      if i: nat :| FirstListed(init, message, part, i) {
        assert FirstListed(atts, message, part, i);
      } else if last.message == message && last.part == part {
        assert forall a :: a in init ==> !(a.message == message && a.part == part);
        assert FirstListed(atts, message, part, |init|);
      }
      if i: nat :| FirstListed(atts, message, part, i) {
        assert atts[i] in atts;
      }
    }
  }

  /** A row there before stays; a new message has the attachments listed for it, each as listed first. */
  ghost predicate AttachedTo(before: map<(nat, int), Attachment>, row: nat, part: int, message: nat,
                             atts: seq<ExportedAttachment>, after: map<(nat, int), Attachment>)
  {
    && ((row, part) in after <==>
        (row, part) in before || exists a :: a in atts && a.message == message && a.part == part)
    && ((row, part) in before ==> (row, part) in after && after[(row, part)] == before[(row, part)])
    && ((row, part) !in before ==>
          forall i: nat :: FirstListed(atts, message, part, i) ==>
            (row, part) in after && after[(row, part)] == atts[i].attachment)
  }

  lemma {:induction false} AttachmentsAreAdded(
    before: map<(nat, int), Attachment>, ids: map<nat, nat>, atts: seq<ExportedAttachment>, row: nat, part: int,
    message: nat)
    requires message in ids && ids[message] == row && forall x :: x in ids && ids[x] == row ==> x == message
    ensures AttachedTo(before, row, part, message, atts, AttachAll(before, ids, atts))
  {
    if atts != [] {
      var init, a := atts[..|atts| - 1], atts[|atts| - 1];
      assert atts == init + [a];
      AttachmentsAreAdded(before, ids, init, row, part, message);
      forall i: nat | FirstListed(atts, message, part, i) && (row, part) !in before
        ensures (row, part) in AttachAll(before, ids, atts)
        ensures AttachAll(before, ids, atts)[(row, part)] == atts[i].attachment
      {
        if i < |init| {
          assert FirstListed(init, message, part, i);
        } else {
          assert forall x :: x in init ==> !(x.message == message && x.part == part);
        }
      }
    }
  }

  lemma {:induction false} OtherRowsStay(
    before: map<(nat, int), Attachment>, ids: map<nat, nat>, atts: seq<ExportedAttachment>, row: nat, part: int)
    requires forall x :: x in ids ==> ids[x] != row
    ensures (row, part) in AttachAll(before, ids, atts) <==> (row, part) in before
    ensures (row, part) in before ==> AttachAll(before, ids, atts)[(row, part)] == before[(row, part)]
  {
    if atts != [] {
      OtherRowsStay(before, ids, atts[..|atts| - 1], row, part);
    }
  }

  /** The rest of an accepted archive: known keys and rotations are merged, drafts are added at the end, and the
    * attachments of an added message are those listed for it; no other attachment row is touched. */
  lemma ImportedRowsAreExact(
    env: Env, a: Account, key: Option<string>, es: seq<Entry>, sel: seq<nat>, fp: string, rotation: (string, string),
    row: nat, part: int)
    requires FreshIds(a.box.messages, a.box.nextId) && Imported(env, a, key, es).1.Ok?
    requires Selects(a.box.messages, DocumentIn(env.messages, "messages.json", es), sel)
    requires DistinctIds(DocumentIn(env.messages, "messages.json", es))
    ensures var after := Imported(env, a, key, es).0.box;
      var ms, base := DocumentIn(env.messages, "messages.json", es), a.box.nextId;
      && KeyMerged(a.box.knownKeys, DocumentIn(env.knownKeys, "known_keys.json", es), fp, after.knownKeys)
      && RotationMerged(
           a.box.rotations, DocumentIn(env.rotations, "key_rotations.json", es), rotation, after.rotations)
      && after.drafts == a.box.drafts + DocumentIn(env.drafts, "drafts.json", es)
      && (base <= row < base + |sel| && sel[row - base] < |ms| ==>
            AttachedTo(a.box.attachments, row, part, ms[sel[row - base]].id,
                       DocumentIn(env.attachments, "message_attachments.json", es), after.attachments))
      && (!(base <= row < base + |sel|) ==>
            ((row, part) in after.attachments <==> (row, part) in a.box.attachments)
            && ((row, part) in a.box.attachments ==> after.attachments[(row, part)] == a.box.attachments[(row, part)]))
  {
    hide FreshIds, InsertAll, ReadAll, AttachAll, UpsertAll, AddRotations, Selects, DistinctIds, DocumentIn, KeyMerged;
    hide RotationMerged, AttachedTo;
    DocumentsAreRead(env, key.value, a.files, es);
    var r := ReadAll(env, key.value, NothingRead(a.files), es).0;
    var t0 := Inserting(a.box.messages, a.box.nextId, map[], 0, 0);
    InsertionNumbers(t0, r.messages, sel);
    InRange(a.box.messages, r.messages, sel);
    var ids := InsertAll(t0, r.messages).ids;
    KeysAreMerged(a.box.knownKeys, r.knownKeys, fp);
    RotationsAreMerged(a.box.rotations, r.rotations, rotation);
    if a.box.nextId <= row < a.box.nextId + |sel| {
      NumbersAreOwn(ids, a.box.nextId, r.messages, sel, row);
      AttachmentsAreAdded(a.box.attachments, ids, r.attachments, row, part, r.messages[sel[row - a.box.nextId]].id);
    } else {
      NoNumberOutside(ids, a.box.nextId, r.messages, sel, row);
      OtherRowsStay(a.box.attachments, ids, r.attachments, row, part);
    }
  }

  lemma NumbersAreOwn(ids: map<nat, nat>, base: nat, ms: seq<ExportedMessage>, sel: seq<nat>, row: nat)
    requires Numbered(ids, base, ms, sel) && base <= row < base + |sel| && forall k :: 0 <= k < |sel| ==> sel[k] < |ms|
    ensures var m := ms[sel[row - base]].id;
            m in ids && ids[m] == row && forall x :: x in ids && ids[x] == row ==> x == m
  {
    forall x | x in ids && ids[x] == row ensures x == ms[sel[row - base]].id {
      assert HasNumber(ids, base, ms, sel, x);
    }
  }

  lemma NoNumberOutside(ids: map<nat, nat>, base: nat, ms: seq<ExportedMessage>, sel: seq<nat>, row: nat)
    requires Numbered(ids, base, ms, sel) && !(base <= row < base + |sel|)
    ensures forall x :: x in ids ==> ids[x] != row
  {
    forall x | x in ids ensures ids[x] != row {
      assert HasNumber(ids, base, ms, sel, x);
    }
  }
}
