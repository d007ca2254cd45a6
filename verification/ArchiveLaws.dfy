/** What an export contains, what an import does the second time, and what survives the round trip. */
module ArchiveLaws {
  import opened Wrappers
  import opened Archive
  import GoText
  import MailStore

  // ---------------------------------------------------------------- inserting twice

  ghost predicate FreshIds(messages: map<nat, Mail>, nextId: nat) {
    forall id :: id in messages ==> id < nextId
  }

  lemma PresenceIsMonotone(before: map<nat, Mail>, after: map<nat, Mail>, m: Mail)
    requires Present(before, m) && forall id :: id in before ==> id in after && after[id] == before[id]
    ensures Present(after, m)
  {
    var id :| id in before && Matches(before[id], m);
    assert id in after && Matches(after[id], m);
  }

  /** Messages already there stay, and every message of the archive is represented afterwards. */
  lemma {:induction false} AllArePresent(t: Inserting, ms: seq<ExportedMessage>)
    requires FreshIds(t.messages, t.nextId)
    ensures var u := InsertAll(t, ms);
      && FreshIds(u.messages, u.nextId) && t.nextId <= u.nextId
      && (forall id :: id in t.messages ==> id in u.messages && u.messages[id] == t.messages[id])
      && (forall m :: m in ms ==> Present(u.messages, m.mail))
      && u.imported + u.skipped == t.imported + t.skipped + |ms|
  {
    if ms != [] {
      var init, last := ms[..|ms| - 1], ms[|ms| - 1];
      AllArePresent(t, init);
      var v, u := InsertAll(t, init), InsertAll(t, ms);
      hide InsertAll, Present;
      LastIsPresent(v, last);
      forall m | m in ms ensures Present(u.messages, m.mail) {
        if m in init {
          PresenceIsMonotone(v.messages, u.messages, m.mail);
        } else {
          assert ms == init + [last];
        }
      }
    }
  }

  lemma LastIsPresent(t: Inserting, m: ExportedMessage)
    requires FreshIds(t.messages, t.nextId)
    ensures Present(InsertIfAbsent(t, m).messages, m.mail)
    ensures forall id :: id in t.messages ==>
              id in InsertIfAbsent(t, m).messages && InsertIfAbsent(t, m).messages[id] == t.messages[id]
  {
    if !Present(t.messages, m.mail) {
      var u := InsertIfAbsent(t, m).messages;
      assert t.nextId in u && Matches(u[t.nextId], m.mail);
    }
  }

  lemma {:induction false} NothingLeftToInsert(t: Inserting, ms: seq<ExportedMessage>)
    requires forall m :: m in ms ==> Present(t.messages, m.mail)
    ensures InsertAll(t, ms) == t.(skipped := t.skipped + |ms|)
  {
    hide Present;
    if ms != [] {
      NothingLeftToInsert(t, ms[..|ms| - 1]);
    }
  }

  lemma {:induction false} NoIdsNoAttachments(rows: map<(nat, int), Attachment>, atts: seq<ExportedAttachment>)
    ensures AttachAll(rows, map[], atts) == rows
  {
    if atts != [] {
      NoIdsNoAttachments(rows, atts[..|atts| - 1]);
    }
  }

  // ---------------------------------------------------------------- upserting twice

  /** `keys` already has everything an upsert of `ks` could raise. */
  ghost predicate Dominates(keys: map<string, KnownKey>, ks: seq<KnownKey>) {
    forall k :: k in ks ==> k.fingerprint in keys && k.lastSeen <= keys[k.fingerprint].lastSeen
  }

  /** The armored key an upsert of `ks` leaves for fingerprint `f`. */
  function LastArmored(ks: seq<KnownKey>, f: string): Option<string> {
    if ks == [] then None
    else if ks[|ks| - 1].fingerprint == f then Some(ks[|ks| - 1].armored)
    else LastArmored(ks[..|ks| - 1], f)
  }

  lemma {:induction false} UpsertsDominate(keys: map<string, KnownKey>, ks: seq<KnownKey>)
    ensures Dominates(UpsertAll(keys, ks), ks)
    ensures forall f :: LastArmored(ks, f).Some? ==>
              f in UpsertAll(keys, ks) && UpsertAll(keys, ks)[f].armored == LastArmored(ks, f).value
  {
    if ks != [] {
      UpsertsDominate(keys, ks[..|ks| - 1]);
      assert ks == ks[..|ks| - 1] + [ks[|ks| - 1]];
    }
  }

  /** On such keys an upsert only sets the armored text, to the last one given. */
  lemma {:induction false} UpsertsOnlySetArmored(keys: map<string, KnownKey>, ks: seq<KnownKey>)
    requires Dominates(keys, ks)
    ensures UpsertAll(keys, ks).Keys == keys.Keys
    ensures forall f :: f in keys ==>
              UpsertAll(keys, ks)[f] ==
              if LastArmored(ks, f).Some? then keys[f].(armored := LastArmored(ks, f).value) else keys[f]
  {
    if ks != [] {
      assert ks == ks[..|ks| - 1] + [ks[|ks| - 1]];
      UpsertsOnlySetArmored(keys, ks[..|ks| - 1]);
    }
  }

  lemma UpsertingTwice(keys: map<string, KnownKey>, ks: seq<KnownKey>)
    ensures UpsertAll(UpsertAll(keys, ks), ks) == UpsertAll(keys, ks)
  {
    hide UpsertAll, LastArmored, Dominates;
    UpsertsDominate(keys, ks);
    UpsertsOnlySetArmored(UpsertAll(keys, ks), ks);
  }

  lemma {:induction false} RotationsAreThere(rows: map<(string, string), Rotation>, rs: seq<Rotation>)
    ensures forall r :: r in rs ==> (r.oldFingerprint, r.newFingerprint) in AddRotations(rows, rs)
    ensures forall k :: k in rows ==> k in AddRotations(rows, rs) && AddRotations(rows, rs)[k] == rows[k]
  {
    if rs != [] {
      RotationsAreThere(rows, rs[..|rs| - 1]);
      assert rs == rs[..|rs| - 1] + [rs[|rs| - 1]];
    }
  }

  lemma {:induction false} NoRotationsLeft(rows: map<(string, string), Rotation>, rs: seq<Rotation>)
    requires forall r :: r in rs ==> (r.oldFingerprint, r.newFingerprint) in rows
    ensures AddRotations(rows, rs) == rows
  {
    if rs != [] {
      NoRotationsLeft(rows, rs[..|rs| - 1]);
    }
  }

  // ---------------------------------------------------------------- reading twice

  /** Blob names that are full digests. */
  ghost predicate HasBlobsOf(files: map<string, string>, before: map<string, string>) {
    forall d: string :: |d| == MailStore.DIGEST_LENGTH && MailStore.BlobPath(d) in before ==>
      MailStore.BlobPath(d) in files && files[MailStore.BlobPath(d)] == before[MailStore.BlobPath(d)]
  }

  lemma WritingKeepsBlobs(hash: string -> string, files: map<string, string>, data: string)
    requires |hash(data)| == MailStore.DIGEST_LENGTH
    ensures HasBlobsOf(MailStore.Written(hash, files, data), files)
    ensures MailStore.BlobPath(hash(data)) in MailStore.Written(hash, files, data)
  {
    forall d: string | |d| == MailStore.DIGEST_LENGTH
      ensures MailStore.BlobPath(d) != MailStore.BlobPath(hash(data)) + ".tmp"
    {
      MailStore.PathsAreDistinct(d, hash(data));
    }
    hide MailStore.BlobPath;
  }

  /** `y` is what a reading step gives over `files` when it gives `x` over `before`: everything but the files comes
    * out the same, and if the blobs are all in `files` already those do not change. */
  ghost predicate Elsewhere(before: map<string, string>, x: Result<Reading, ImportError>,
                            files: map<string, string>, y: Result<Reading, ImportError>)
  {
    match x
    case Err(_) => y == x
    case Ok(r) => y.Ok? && HasBlobsOf(r.files, before) && (HasBlobsOf(files, r.files) ==> y == Ok(r.(files := files)))
  }

  lemma ReadingElsewhere(env: Env, fp: string, r: Reading, files: map<string, string>, e: Entry)
    ensures Elsewhere(r.files, ReadEntry(env, fp, r, e), files, ReadEntry(env, fp, r.(files := files), e))
  {
    hide MailStore.BlobPath, MailStore.Written, GoText.Split, ValidEntryName, IsBlobName, HasBlobsOf, KindOf;
    SameFilesHaveSameBlobs(r.files);
    if KindOf(e.name) == Blob {
      ReadingBlobElsewhere(env, r.(count := r.count + 1), files, e);
      hide ReadBlobEntry;
    }
  }

  lemma SameFilesHaveSameBlobs(files: map<string, string>)
    ensures HasBlobsOf(files, files)
  {
  }

  lemma ReadingBlobElsewhere(env: Env, r: Reading, files: map<string, string>, e: Entry)
    requires IsBlobName(e.name)
    ensures Elsewhere(r.files, ReadBlobEntry(env, r, e), files, ReadBlobEntry(env, r.(files := files), e))
  {
    hide MailStore.BlobPath, IsBlobName;
    if ReadBlobEntry(env, r, e).Ok? {
      WritingKeepsBlobs(env.hash, r.files, e.data);
      WritingKeepsBlobs(env.hash, files, e.data);
    }
  }

  lemma HasBlobsChains(a: map<string, string>, b: map<string, string>, c: map<string, string>)
    requires HasBlobsOf(b, a) && HasBlobsOf(c, b)
    ensures HasBlobsOf(c, a)
  {
    hide MailStore.BlobPath;
  }

  lemma {:induction false} ReadingAgain(env: Env, fp: string, r: Reading, files: map<string, string>, es: seq<Entry>)
    requires ReadAll(env, fp, r, es).1.None? && HasBlobsOf(files, ReadAll(env, fp, r, es).0.files)
    ensures HasBlobsOf(ReadAll(env, fp, r, es).0.files, r.files)
    ensures ReadAll(env, fp, r.(files := files), es) == (ReadAll(env, fp, r, es).0.(files := files), None)
    decreases |es|
  {
    hide ReadEntry, HasBlobsOf;
    SameFilesHaveSameBlobs(r.files);
    if es != [] {
      var r' := ReadEntry(env, fp, r, es[0]).value;
      ReadingAgain(env, fp, r', files, es[1..]);
      var end := ReadAll(env, fp, r', es[1..]).0;
      HasBlobsChains(r'.files, end.files, files);
      ReadingElsewhere(env, fp, r, files, es[0]);
      HasBlobsChains(r.files, r'.files, end.files);
    }
  }

  /** Importing an accepted archive a second time changes nothing but the drafts, which it adds again; each time the
    * messages imported and those skipped add up to the messages of the archive. */
  lemma ImportIsIdempotent(env: Env, a: Account, key: Option<string>, es: seq<Entry>)
    requires FreshIds(a.box.messages, a.box.nextId)
    requires Imported(env, a, key, es).1.Ok?
    ensures var (once, first) := Imported(env, a, key, es);
            var (twice, second) := Imported(env, once, key, es);
            var read := ReadAll(env, key.value, NothingRead(a.files), es).0;
            && once.box.drafts == a.box.drafts + read.drafts
            && twice == once.(box := once.box.(drafts := once.box.drafts + read.drafts))
            && first.value.messages + first.value.skipped == |read.messages|
            && second == Ok(first.value.(messages := 0, skipped := |read.messages|))
  {
    hide ReadAll, InsertAll, AttachAll, UpsertAll, AddRotations, HasBlobsOf;
    var (once, first) := Imported(env, a, key, es);
    var fp := key.value;
    var r := ReadAll(env, fp, NothingRead(a.files), es).0;
    SameFilesHaveSameBlobs(r.files);
    ReadingAgain(env, fp, NothingRead(a.files), r.files, es);
    var t0 := Inserting(a.box.messages, a.box.nextId, map[], 0, 0);
    var t := InsertAll(t0, r.messages);
    AllArePresent(t0, r.messages);
    NothingLeftToInsert(Inserting(t.messages, t.nextId, map[], 0, 0), r.messages);
    NoIdsNoAttachments(once.box.attachments, r.attachments);
    UpsertingTwice(a.box.knownKeys, r.knownKeys);
    RotationsAreThere(a.box.rotations, r.rotations);
    NoRotationsLeft(once.box.rotations, r.rotations);
  }

  // ---------------------------------------------------------------- which messages an import keeps

  predicate Represented(stored: seq<Mail>, m: Mail) {
    exists x :: x in stored && Matches(x, m)
  }

  function Mails(ms: seq<ExportedMessage>): seq<Mail> {
    seq(|ms|, i requires 0 <= i < |ms| => ms[i].mail)
  }

  /** The messages with nothing before them, in the mailbox or in the archive, that already represents them. */
  function Kept(stored: seq<Mail>, ms: seq<ExportedMessage>): seq<ExportedMessage> {
    if ms == [] then []
    else
      var k, m := Kept(stored, ms[..|ms| - 1]), ms[|ms| - 1];
      if Represented(stored + Mails(k), m.mail) then k else k + [m]
  }

  /** No message is represented by an earlier one of the list. */
  ghost predicate NoTwoMatch(ms: seq<ExportedMessage>) {
    forall i, j :: 0 <= i < j < |ms| ==> !Matches(ms[i].mail, ms[j].mail)
  }

  lemma MatchedByOne(ms: seq<ExportedMessage>, m: Mail)
    ensures Represented(Mails(ms), m) <==> exists i :: 0 <= i < |ms| && Matches(ms[i].mail, m)
  {
    hide Matches;
    if i :| 0 <= i < |ms| && Matches(ms[i].mail, m) {
      assert Mails(ms)[i] in Mails(ms);
    }
    if Represented(Mails(ms), m) {
      var x :| x in Mails(ms) && Matches(x, m);
      var i :| 0 <= i < |ms| && Mails(ms)[i] == x;
    }
  }

  lemma NoTwoMatchInOneMore(init: seq<ExportedMessage>, m: ExportedMessage)
    ensures NoTwoMatch(init + [m]) <==> NoTwoMatch(init) && !Represented(Mails(init), m.mail)
  {
    hide Matches;
    var ms := init + [m];
    MatchedByOne(init, m.mail);
    if NoTwoMatch(ms) {
      forall i, j | 0 <= i < j < |init| ensures !Matches(init[i].mail, init[j].mail) {
        assert !Matches(ms[i].mail, ms[j].mail);
      }
      forall i | 0 <= i < |init| ensures !Matches(init[i].mail, m.mail) {
        assert !Matches(ms[i].mail, ms[|init|].mail);
      }
    }
  }

  /** Into an empty mailbox, an import loses no message if and only if no two of them match. */
  lemma {:induction false} AllKeptIff(ms: seq<ExportedMessage>)
    ensures |Kept([], ms)| <= |ms|
    ensures Kept([], ms) == ms <==> NoTwoMatch(ms)
    ensures |Kept([], ms)| == |ms| ==> Kept([], ms) == ms
  {
    if ms != [] {
      var init, m := ms[..|ms| - 1], ms[|ms| - 1];
      AllKeptIff(init);
      hide NoTwoMatch, Represented;
      assert [] + Mails(Kept([], init)) == Mails(Kept([], init));
      assert ms == init + [m];
      NoTwoMatchInOneMore(init, m);
    }
  }

  /** `messages` holds the rows of `before`, and the mail of `k` from `base` on. */
  ghost predicate Holds(messages: map<nat, Mail>, before: map<nat, Mail>, base: nat, k: seq<ExportedMessage>) {
    && (forall id :: id in messages <==> id in before || base <= id < base + |k|)
    && (forall id :: id in before ==> messages[id] == before[id])
    && (forall i :: 0 <= i < |k| ==> messages[base + i] == k[i].mail)
  }

  /** `stored` lists the mail of `messages`. */
  ghost predicate Lists(stored: seq<Mail>, messages: map<nat, Mail>) {
    forall x :: x in stored <==> exists id :: id in messages && messages[id] == x
  }

  lemma PresentMeans(messages: map<nat, Mail>, before: map<nat, Mail>, base: nat, k: seq<ExportedMessage>,
                     stored: seq<Mail>, m: Mail)
    requires FreshIds(before, base) && Holds(messages, before, base, k) && Lists(stored, before)
    ensures Present(messages, m) <==> Represented(stored + Mails(k), m)
  {
    hide Matches;
    if Present(messages, m) {
      var id :| id in messages && Matches(messages[id], m);
      if id in before {
        assert before[id] in stored;
        assert before[id] in stored + Mails(k) && Matches(before[id], m);
      } else {
        assert Mails(k)[id - base] in Mails(k);
        assert messages[id] in stored + Mails(k);
      }
    }
    if Represented(stored + Mails(k), m) {
      var x :| x in stored + Mails(k) && Matches(x, m);
      if x in stored {
        var id :| id in before && before[id] == x;
        assert id in messages && Matches(messages[id], m);
      } else {
        var i :| 0 <= i < |k| && Mails(k)[i] == x;
        assert base + i in messages && Matches(messages[base + i], m);
      }
    }
  }

  lemma OneMoreRow(
    messages: map<nat, Mail>, before: map<nat, Mail>, base: nat, k: seq<ExportedMessage>, m: ExportedMessage)
    requires FreshIds(before, base) && Holds(messages, before, base, k)
    ensures Holds(messages[base + |k| := m.mail], before, base, k + [m])
  {
  }

  lemma OneMoreInserted(t: Inserting, v: Inserting, stored: seq<Mail>, k: seq<ExportedMessage>, m: ExportedMessage)
    requires FreshIds(t.messages, t.nextId) && Lists(stored, t.messages)
    requires Holds(v.messages, t.messages, t.nextId, k) && v.nextId == t.nextId + |k|
    ensures var u := InsertIfAbsent(v, m);
            var k' := if Represented(stored + Mails(k), m.mail) then k else k + [m];
      && Holds(u.messages, t.messages, t.nextId, k') && u.nextId == t.nextId + |k'|
      && u.imported == v.imported + |k'| - |k| && u.skipped == v.skipped + 1 - (|k'| - |k|)
  {
    hide Holds, FreshIds, Lists, Present, Represented, Mails;
    PresentMeans(v.messages, t.messages, t.nextId, k, stored, m.mail);
    OneMoreRow(v.messages, t.messages, t.nextId, k, m);
  }

  /** The new rows are the kept messages, in order, under consecutive new ids, with every field as exported. */
  lemma {:induction false} InsertedAreKept(t: Inserting, stored: seq<Mail>, ms: seq<ExportedMessage>)
    requires FreshIds(t.messages, t.nextId) && Lists(stored, t.messages)
    ensures var u, k := InsertAll(t, ms), Kept(stored, ms);
      && Holds(u.messages, t.messages, t.nextId, k) && u.nextId == t.nextId + |k|
      && u.imported == t.imported + |k| && u.skipped == t.skipped + |ms| - |k|
  {
    hide FreshIds, Lists, Represented, InsertIfAbsent;
    if ms == [] {
      assert InsertAll(t, ms) == t && Kept(stored, ms) == [];
    } else {
      hide Holds;
      var init, m := ms[..|ms| - 1], ms[|ms| - 1];
      InsertedAreKept(t, stored, init);
      OneMoreInserted(t, InsertAll(t, init), stored, Kept(stored, init), m);
    }
  }

  // ---------------------------------------------------------------- where the attachments go

  ghost predicate DistinctIds(ms: seq<ExportedMessage>) {
    forall i, j :: 0 <= i < j < |ms| ==> ms[i].id != ms[j].id
  }

  lemma {:induction false} KeptAreExported(stored: seq<Mail>, ms: seq<ExportedMessage>)
    requires DistinctIds(ms)
    ensures DistinctIds(Kept(stored, ms))
    ensures forall m :: m in Kept(stored, ms) ==> m in ms
  {
    hide Represented, DistinctIds;
    if ms == [] {
      NoIds();
    } else {
      var init, m := ms[..|ms| - 1], ms[|ms| - 1];
      assert ms == init + [m];
      DistinctIdsInOneMore(init, m);
      KeptAreExported(stored, init);
      DistinctIdsInOneMore(Kept(stored, init), m);
    }
  }

  lemma NoIds()
    ensures DistinctIds([])
  {
  }

  ghost predicate PointToRows(ids: map<nat, nat>, base: nat, k: seq<ExportedMessage>) {
    && (forall i :: 0 <= i < |k| ==> k[i].id in ids && ids[k[i].id] == base + i)
    && (forall x :: x in ids ==> exists m :: m in k && m.id == x)
  }

  /** The new row of each kept message is found under its exported id. */
  lemma {:induction false} IdsPointToRows(t: Inserting, stored: seq<Mail>, ms: seq<ExportedMessage>)
    requires FreshIds(t.messages, t.nextId) && Lists(stored, t.messages) && t.ids == map[] && DistinctIds(ms)
    ensures var ids, k := InsertAll(t, ms).ids, Kept(stored, ms);
      PointToRows(ids, t.nextId, k)
  {
    if ms != [] {
      var init, m := ms[..|ms| - 1], ms[|ms| - 1];
      assert DistinctIds(init);
      IdsPointToRows(t, stored, init);
      InsertedAreKept(t, stored, init);
      KeptAreExported(stored, init);
      KeptAreExported(stored, ms);
      var v, k := InsertAll(t, init), Kept(stored, init);
      var u, k' := InsertAll(t, ms), Kept(stored, ms);
      PresentMeans(v.messages, t.messages, t.nextId, k, stored, m.mail);
      assert u == InsertIfAbsent(v, m);
      assert k' == if Represented(stored + Mails(k), m.mail) then k else k + [m];
      hide InsertAll, Kept, Present, Represented, Holds, Lists;
      if k' != k {
        assert forall x :: x in u.ids <==> x in v.ids || x == m.id;
        assert m in k';
        forall i | 0 <= i < |k| ensures k[i].id != m.id { assert k'[i].id != k'[|k|].id; }
      }
    }
  }

  /** Attachment rows are keyed by message and part. */
  ghost predicate DistinctParts(atts: seq<ExportedAttachment>) {
    forall i, j :: 0 <= i < j < |atts| ==> atts[i].message != atts[j].message || atts[i].part != atts[j].part
  }

  ghost predicate Injective(ids: map<nat, nat>) {
    forall x, y :: x in ids && y in ids && ids[x] == ids[y] ==> x == y
  }

  ghost predicate ComesFrom(key: (nat, int), ids: map<nat, nat>, atts: seq<ExportedAttachment>) {
    exists a :: a in atts && a.message in ids && ids[a.message] == key.0 && a.part == key.1
  }

  /** Each attachment of an inserted message appears once, under the new row, and nothing else does. */
  ghost predicate FollowTheirMessages(rows: map<(nat, int), Attachment>, ids: map<nat, nat>,
    atts: seq<ExportedAttachment>) {
    && (forall a :: a in atts && a.message in ids ==>
          (ids[a.message], a.part) in rows && rows[(ids[a.message], a.part)] == a.attachment)
    && (forall key :: key in rows ==> ComesFrom(key, ids, atts))
  }

  lemma OneMoreAttachment(rows: map<(nat, int), Attachment>, ids: map<nat, nat>, atts: seq<ExportedAttachment>,
                          a: ExportedAttachment)
    requires FollowTheirMessages(rows, ids, atts) && Injective(ids)
    requires forall b :: b in atts ==> b.message != a.message || b.part != a.part
    ensures FollowTheirMessages(Attach(rows, ids, a), ids, atts + [a])
  {
    var after := Attach(rows, ids, a);
    forall key | key in after ensures ComesFrom(key, ids, atts + [a]) {
      if key in rows {
        assert ComesFrom(key, ids, atts);
        var b :| b in atts && b.message in ids && ids[b.message] == key.0 && b.part == key.1;
        assert b in atts + [a];
      } else {
        assert a in atts + [a];
      }
    }
    if a.message in ids {
      var key := (ids[a.message], a.part);
      assert !ComesFrom(key, ids, atts);
      assert key !in rows;
    }
  }

  lemma {:induction false} AttachmentsFollow(ids: map<nat, nat>, atts: seq<ExportedAttachment>)
    requires DistinctParts(atts) && Injective(ids)
    ensures FollowTheirMessages(AttachAll(map[], ids, atts), ids, atts)
  {
    if atts != [] {
      var init, a := atts[..|atts| - 1], atts[|atts| - 1];
      assert DistinctParts(init);
      AttachmentsFollow(ids, init);
      hide FollowTheirMessages, Injective, DistinctParts;
      assert atts == init + [a];
      DistinctPartsInOneMore(init, a);
      OneMoreAttachment(AttachAll(map[], ids, init), ids, init, a);
    }
  }

  ghost predicate DistinctKeys(ks: seq<KnownKey>) {
    forall i, j :: 0 <= i < j < |ks| ==> ks[i].fingerprint != ks[j].fingerprint
  }

  lemma DistinctKeysInOneMore(ks: seq<KnownKey>, k: KnownKey)
    requires DistinctKeys(ks + [k])
    ensures DistinctKeys(ks) && forall x :: x in ks ==> x.fingerprint != k.fingerprint
  {
    var all := ks + [k];
    forall i, j | 0 <= i < j < |ks| ensures ks[i].fingerprint != ks[j].fingerprint {
      assert all[i].fingerprint != all[j].fingerprint;
    }
    forall x | x in ks ensures x.fingerprint != k.fingerprint {
      var i :| 0 <= i < |ks| && ks[i] == x;
      assert all[i].fingerprint != all[|ks|].fingerprint;
    }
  }

  /** `rows` holds exactly the keys `ks`. */
  ghost predicate HoldsKeys(rows: map<string, KnownKey>, ks: seq<KnownKey>) {
    && (forall k :: k in ks ==> k.fingerprint in rows && rows[k.fingerprint] == k)
    && (forall f :: f in rows ==> exists k :: k in ks && k.fingerprint == f)
  }

  lemma OneMoreKey(rows: map<string, KnownKey>, ks: seq<KnownKey>, k: KnownKey)
    requires HoldsKeys(rows, ks) && forall x :: x in ks ==> x.fingerprint != k.fingerprint
    ensures HoldsKeys(Upsert(rows, k), ks + [k])
  {
    var after := Upsert(rows, k);
    forall f | f in after ensures exists x :: x in ks + [k] && x.fingerprint == f {
      if f in rows {
        var x :| x in ks && x.fingerprint == f;
        assert x in ks + [k];
      } else {
        assert k in ks + [k];
      }
    }
  }

  lemma {:induction false} KnownKeysFollow(ks: seq<KnownKey>)
    requires DistinctKeys(ks)
    ensures HoldsKeys(UpsertAll(map[], ks), ks)
  {
    if ks != [] {
      hide DistinctKeys, HoldsKeys;
      var init, k := ks[..|ks| - 1], ks[|ks| - 1];
      assert ks == init + [k];
      DistinctKeysInOneMore(init, k);
      KnownKeysFollow(init);
      OneMoreKey(UpsertAll(map[], init), init, k);
    }
  }

  function Ends(r: Rotation): (string, string) {
    (r.oldFingerprint, r.newFingerprint)
  }

  ghost predicate DistinctRotations(rs: seq<Rotation>) {
    forall i, j :: 0 <= i < j < |rs| ==> Ends(rs[i]) != Ends(rs[j])
  }

  lemma DistinctRotationsInOneMore(rs: seq<Rotation>, r: Rotation)
    requires DistinctRotations(rs + [r])
    ensures DistinctRotations(rs) && forall x :: x in rs ==> Ends(x) != Ends(r)
  {
    hide Ends;
    var all := rs + [r];
    forall i, j | 0 <= i < j < |rs| ensures Ends(rs[i]) != Ends(rs[j]) {
      assert Ends(all[i]) != Ends(all[j]);
    }
    forall x | x in rs ensures Ends(x) != Ends(r) {
      var i :| 0 <= i < |rs| && rs[i] == x;
      assert Ends(all[i]) != Ends(all[|rs|]);
    }
  }

  /** `rows` holds exactly the rotations `rs`. */
  ghost predicate HoldsRotations(rows: map<(string, string), Rotation>, rs: seq<Rotation>) {
    && (forall r :: r in rs ==> Ends(r) in rows && rows[Ends(r)] == r)
    && (forall key :: key in rows ==> exists r :: r in rs && Ends(r) == key)
  }

  lemma OneMoreRotation(rows: map<(string, string), Rotation>, rs: seq<Rotation>, r: Rotation)
    requires HoldsRotations(rows, rs) && forall x :: x in rs ==> Ends(x) != Ends(r)
    ensures HoldsRotations(AddRotation(rows, r), rs + [r])
  {
    assert Ends(r) !in rows;
    var after := AddRotation(rows, r);
    assert after == rows[Ends(r) := r];
    hide Ends;
    forall key | key in after ensures exists x :: x in rs + [r] && Ends(x) == key {
      if key in rows {
        var x :| x in rs && Ends(x) == key;
        assert x in rs + [r];
      } else {
        assert r in rs + [r];
      }
    }
  }

  lemma {:induction false} RotationsFollow(rs: seq<Rotation>)
    requires DistinctRotations(rs)
    ensures HoldsRotations(AddRotations(map[], rs), rs)
  {
    if rs != [] {
      hide DistinctRotations, HoldsRotations, AddRotation;
      var init, r := rs[..|rs| - 1], rs[|rs| - 1];
      assert rs == init + [r];
      DistinctRotationsInOneMore(init, r);
      RotationsFollow(init);
      OneMoreRotation(AddRotations(map[], init), init, r);
    }
  }

  // ---------------------------------------------------------------- reading what an export wrote

  ghost predicate CodecOk<T(!new)>(c: Codec<T>) {
    forall x :: c.parse(c.render(x)) == Some(x)
  }

  ghost predicate CodecsOk(env: Env) {
    CodecOk(env.manifest) && CodecOk(env.messages) && CodecOk(env.attachments) && CodecOk(env.knownKeys)
    && CodecOk(env.rotations) && CodecOk(env.drafts)
  }

  lemma PlainNamesAreValid(name: string)
    requires |name| > 2 && '/' !in name
    ensures ValidEntryName(name)
  {
    assert GoText.IndexByte(name, '/').None?;
    assert GoText.Split(name, '/') == [name];
    assert name[0] in name;
  }

  lemma DocumentNames()
    ensures KindOf("manifest.json") == ManifestJson && ValidEntryName("manifest.json")
    ensures KindOf("public_key.asc") == PublicKey && ValidEntryName("public_key.asc")
    ensures KindOf("known_keys.json") == KnownKeysJson && ValidEntryName("known_keys.json")
    ensures KindOf("key_rotations.json") == RotationsJson && ValidEntryName("key_rotations.json")
    ensures KindOf("drafts.json") == DraftsJson && ValidEntryName("drafts.json")
    ensures KindOf("messages.json") == MessagesJson && ValidEntryName("messages.json")
    ensures KindOf("message_attachments.json") == AttachmentsJson && ValidEntryName("message_attachments.json")
  {
    hide ValidEntryName;
    PlainNamesAreValid("manifest.json");
    PlainNamesAreValid("public_key.asc");
    PlainNamesAreValid("known_keys.json");
    PlainNamesAreValid("key_rotations.json");
    PlainNamesAreValid("drafts.json");
    assert "messages.json"[1] == 'e';
    PlainNamesAreValid("messages.json");
    PlainNamesAreValid("message_attachments.json");
  }

  lemma BlobNameParts(d: string)
    requires |d| == MailStore.DIGEST_LENGTH
    ensures |BlobName(d)| == 74 && BlobName(d)[..6] == "blobs/" && BlobName(d)[6..70] == d
      && BlobName(d)[70..] == ".eml"
    ensures BlobName(d) == "blobs" + ['/'] + (d + ".eml")
  {
    assert |"blobs/"| == 6 && |".eml"| == 4;
    assert "blobs/" == "blobs" + ['/'];
  }

  lemma LastPiece(s: string)
    requires '/' !in s
    ensures GoText.Split(s, '/') == [s]
  {
    assert GoText.IndexByte(s, '/').None?;
  }

  lemma BlobNameIsValid(d: string)
    requires |d| == MailStore.DIGEST_LENGTH && '/' !in d
    ensures ValidEntryName(BlobName(d))
  {
    hide BlobName, GoText.Split;
    BlobNameParts(d);
    GoText.SplitOff("blobs", '/', d + ".eml");
    LastPiece(d + ".eml");
    assert BlobName(d)[0] == BlobName(d)[..6][0];
    assert |d + ".eml"| == 68 && |"blobs"| == 5 && |".."| == 2;
  }

  lemma LongNamesAreNotDocuments(name: string)
    requires |name| == 74
    ensures KindOf(name) == if IsBlobName(name) then Blob else Unknown
  {
    hide IsBlobName;
  }

  lemma BlobNames(d: string)
    requires |d| == MailStore.DIGEST_LENGTH && '/' !in d
    ensures KindOf(BlobName(d)) == Blob && ValidEntryName(BlobName(d))
    ensures |BlobName(d)| == 74 && BlobName(d)[6..70] == d
  {
    hide BlobName, KindOf, ValidEntryName;
    BlobNameParts(d);
    BlobNameIsValid(d);
    LongNamesAreNotDocuments(BlobName(d));
  }

  lemma {:induction false} ReadingOn(env: Env, fp: string, r: Reading, es: seq<Entry>, es': seq<Entry>)
    ensures ReadAll(env, fp, r, es + es') ==
            if ReadAll(env, fp, r, es).1.None? then ReadAll(env, fp, ReadAll(env, fp, r, es).0, es')
            else ReadAll(env, fp, r, es)
    decreases |es|
  {
    hide ReadEntry;
    if es == [] {
      assert es + es' == es';
    } else {
      assert (es + es')[0] == es[0] && (es + es')[1..] == es[1..] + es';
      if ReadEntry(env, fp, r, es[0]).Ok? {
        ReadingOn(env, fp, ReadEntry(env, fp, r, es[0]).value, es[1..], es');
      }
    }
  }

  lemma ReadingOne(env: Env, fp: string, r: Reading, e: Entry)
    ensures ReadAll(env, fp, r, [e]) ==
            if ReadEntry(env, fp, r, e).Ok? then (ReadEntry(env, fp, r, e).value, None)
            else (r, Some(ReadEntry(env, fp, r, e).error))
  {
    hide ReadEntry;
    assert [e][1..] == [];
  }

  lemma ReadingFirst(env: Env, fp: string, r: Reading, e: Entry, es: seq<Entry>)
    ensures ReadAll(env, fp, r, [e] + es) ==
            if ReadEntry(env, fp, r, e).Ok? then ReadAll(env, fp, ReadEntry(env, fp, r, e).value, es)
            else (r, Some(ReadEntry(env, fp, r, e).error))
  {
    hide ReadEntry;
    assert ([e] + es)[1..] == es;
  }

  ghost predicate Named(name: string, kind: Kind) {
    KindOf(name) == kind && ValidEntryName(name)
  }

  lemma DocumentIsReadBack(env: Env, mine: string, r: Reading, name: string, m: Manifest, armored: string,
                           e: Export, keys: seq<KnownKey>, rotations: seq<Rotation>, drafts: seq<Draft>)
    requires CodecsOk(env) && r.count < 7 && m.schemaVersion == SCHEMA_VERSION
    ensures Named(name, ManifestJson) ==>
      ReadEntry(env, mine, r, Entry(name, env.manifest.render(m))) ==
      if GoText.EqualFold(m.keyFingerprint, mine) then Ok(r.(count := r.count + 1, manifest := Some(m)))
      else Err(NotYourArchive)
    ensures Named(name, PublicKey) ==>
      ReadEntry(env, mine, r, Entry(name, armored)) == Ok(r.(count := r.count + 1))
    ensures Named(name, KnownKeysJson) ==>
      ReadEntry(env, mine, r, Entry(name, env.knownKeys.render(keys))) ==
        Ok(r.(count := r.count + 1, knownKeys := keys))
    ensures Named(name, RotationsJson) ==>
      ReadEntry(env, mine, r, Entry(name, env.rotations.render(rotations))) ==
      Ok(r.(count := r.count + 1, rotations := rotations))
    ensures Named(name, DraftsJson) ==>
      ReadEntry(env, mine, r, Entry(name, env.drafts.render(drafts))) == Ok(r.(count := r.count + 1, drafts := drafts))
    ensures Named(name, MessagesJson) ==>
      ReadEntry(env, mine, r, Entry(name, env.messages.render(e.messages))) ==
      Ok(r.(count := r.count + 1, messages := e.messages))
    ensures Named(name, AttachmentsJson) ==>
      ReadEntry(env, mine, r, Entry(name, env.attachments.render(e.attachments))) ==
      Ok(r.(count := r.count + 1, attachments := e.attachments))
  {
    hide KindOf, ValidEntryName, GoText.EqualFold, ReadBlobEntry;
  }

  /** The documents are read back; the archive of another key is refused at its first entry. */
  lemma DocumentsAreReadBack(env: Env, fp: string, mine: string, armored: string, e: Export, keys: seq<KnownKey>,
                             rotations: seq<Rotation>, drafts: seq<Draft>, files: map<string, string>)
    requires CodecsOk(env)
    ensures var (r, failure) := ReadAll(env, mine, NothingRead(files), 
              Documents(env, fp, armored, e, keys, rotations, drafts));
            if GoText.EqualFold(fp, mine) then
              failure.None? && r == Reading(7, files, 0, Some(ManifestOf(fp, e, keys, rotations, drafts)),
                                            e.messages, e.attachments, keys, rotations, drafts)
            else failure == Some(NotYourArchive)
  {
    DocumentNames();
    SevenAreReadBack(env, fp, mine, armored, e, keys, rotations, drafts, files,
      "manifest.json", "public_key.asc", "known_keys.json", "key_rotations.json", "drafts.json",
      "messages.json", "message_attachments.json");
    hide KindOf, ValidEntryName, ReadAll, GoText.EqualFold;
  }

  lemma SevenAreReadBack(env: Env, fp: string, mine: string, armored: string, e: Export, keys: seq<KnownKey>,
                         rotations: seq<Rotation>, drafts: seq<Draft>, files: map<string, string>,
                         n1: string, n2: string, n3: string, n4: string, n5: string, n6: string, n7: string)
    requires CodecsOk(env)
    requires Named(n1, ManifestJson) && Named(n2, PublicKey) && Named(n3, KnownKeysJson) && Named(n4, RotationsJson)
    requires Named(n5, DraftsJson) && Named(n6, MessagesJson) && Named(n7, AttachmentsJson)
    ensures var m := ManifestOf(fp, e, keys, rotations, drafts);
            var (r, failure) := ReadAll(env, mine, NothingRead(files),
              [Entry(n1, env.manifest.render(m)), Entry(n2, armored), Entry(n3, env.knownKeys.render(keys)),
               Entry(n4, env.rotations.render(rotations)), Entry(n5, env.drafts.render(drafts)),
               Entry(n6, env.messages.render(e.messages)), Entry(n7, env.attachments.render(e.attachments))]);
            if GoText.EqualFold(fp, mine) then
              failure.None? && r == Reading(7, files, 0, Some(m), e.messages, e.attachments, keys, rotations, drafts)
            else failure == Some(NotYourArchive)
  {
    hide Named, ReadAll, ReadEntry, GoText.EqualFold, CodecsOk;
    var r0 := NothingRead(files);
    var m := ManifestOf(fp, e, keys, rotations, drafts);
    var d1, d2 := Entry(n1, env.manifest.render(m)), Entry(n2, armored);
    var d3, d4 := Entry(n3, env.knownKeys.render(keys)), Entry(n4, env.rotations.render(rotations));
    var d5, d6 := Entry(n5, env.drafts.render(drafts)), Entry(n6, env.messages.render(e.messages));
    var d7 := Entry(n7, env.attachments.render(e.attachments));
    DocumentIsReadBack(env, mine, r0, n1, m, armored, e, keys, rotations, drafts);
    ReadingFirst(env, mine, r0, d1, [d2, d3, d4, d5, d6, d7]);
    assert [d1] + [d2, d3, d4, d5, d6, d7] == [d1, d2, d3, d4, d5, d6, d7];
    if GoText.EqualFold(fp, mine) {
      var r1 := r0.(count := 1, manifest := Some(m));
      DocumentIsReadBack(env, mine, r1, n2, m, armored, e, keys, rotations, drafts);
      ReadingFirst(env, mine, r1, d2, [d3, d4, d5, d6, d7]);
      assert [d2] + [d3, d4, d5, d6, d7] == [d2, d3, d4, d5, d6, d7];
      var r2 := r1.(count := 2);
      DocumentIsReadBack(env, mine, r2, n3, m, armored, e, keys, rotations, drafts);
      ReadingFirst(env, mine, r2, d3, [d4, d5, d6, d7]);
      assert [d3] + [d4, d5, d6, d7] == [d3, d4, d5, d6, d7];
      var r3 := r2.(count := 3, knownKeys := keys);
      DocumentIsReadBack(env, mine, r3, n4, m, armored, e, keys, rotations, drafts);
      ReadingFirst(env, mine, r3, d4, [d5, d6, d7]);
      assert [d4] + [d5, d6, d7] == [d4, d5, d6, d7];
      var r4 := r3.(count := 4, rotations := rotations);
      DocumentIsReadBack(env, mine, r4, n5, m, armored, e, keys, rotations, drafts);
      ReadingFirst(env, mine, r4, d5, [d6, d7]);
      assert [d5] + [d6, d7] == [d5, d6, d7];
      var r5 := r4.(count := 5, drafts := drafts);
      DocumentIsReadBack(env, mine, r5, n6, m, armored, e, keys, rotations, drafts);
      ReadingFirst(env, mine, r5, d6, [d7]);
      assert [d6] + [d7] == [d6, d7];
      var r6 := r5.(count := 6, messages := e.messages);
      DocumentIsReadBack(env, mine, r6, n7, m, armored, e, keys, rotations, drafts);
      ReadingOne(env, mine, r6, d7);
    }
  }

  /** A blob of the exporting server, under its own digest. */
  ghost predicate GoodBlob(env: Env, files: map<string, string>, d: string) {
    && |d| == MailStore.DIGEST_LENGTH && '/' !in d
    && MailStore.BlobPath(d) in files && env.hash(files[MailStore.BlobPath(d)]) == d
  }

  lemma BlobIsReadBack(env: Env, mine: string, r: Reading, files: map<string, string>, d: string)
    requires GoodBlob(env, files, d)
    ensures var data := files[MailStore.BlobPath(d)];
            ReadEntry(env, mine, r, Entry(BlobName(d), data)) ==
            if r.count < MAX_TAR_ENTRIES then
              Ok(r.(count := r.count + 1, files := MailStore.Written(env.hash, r.files, data), blobs := r.blobs + 1))
            else Err(TooManyEntries)
  {
    hide KindOf, ValidEntryName, BlobName, MailStore.BlobPath, MailStore.Written, IsBlobName;
    BlobNames(d);
  }

  /** What the blob entries leave on disk. */
  function BlobsWritten(
    hash: string -> string, files: map<string, string>, from: map<string, string>, blobs: seq<string>)
    : map<string, string>
  {
    if blobs == [] then files
    else
      var path := MailStore.BlobPath(blobs[|blobs| - 1]);
      MailStore.Written(hash, BlobsWritten(hash, files, from, blobs[..|blobs| - 1]),
        if path in from then from[path] else "")
  }

  lemma {:induction false} BlobsAreReadBack(
    env: Env, mine: string, r: Reading, files: map<string, string>, blobs: seq<string>)
    requires forall d :: d in blobs ==> GoodBlob(env, files, d)
    ensures var (r', failure) := ReadAll(env, mine, r, BlobEntries(files, blobs));
            if r.count + |blobs| <= MAX_TAR_ENTRIES || blobs == [] then
              failure.None? && r' == r.(count := r.count + |blobs|, blobs := r.blobs + |blobs|,
                                        files := BlobsWritten(env.hash, r.files, files, blobs))
            else failure == Some(TooManyEntries)
  {
    hide ReadEntry, GoodBlob, MailStore.BlobPath, BlobName;
    if blobs != [] {
      var init, d := blobs[..|blobs| - 1], blobs[|blobs| - 1];
      BlobsAreReadBack(env, mine, r, files, init);
      GoodBlobIsThere(env, files, d);
      var entry := Entry(BlobName(d), files[MailStore.BlobPath(d)]);
      var r' := ReadAll(env, mine, r, BlobEntries(files, init)).0;
      ReadingOn(env, mine, r, BlobEntries(files, init), [entry]);
      ReadingOne(env, mine, r', entry);
      BlobIsReadBack(env, mine, r', files, d);
    }
  }

  lemma GoodBlobIsThere(env: Env, files: map<string, string>, d: string)
    requires GoodBlob(env, files, d)
    ensures MailStore.BlobPath(d) in files
  {
  }

  /** Writing a blob adds its own path, and nothing else changes for any digest. */
  lemma OneBlobWritten(hash: string -> string, files: map<string, string>, data: string, x: string)
    requires |hash(data)| == MailStore.DIGEST_LENGTH
    ensures var after := MailStore.Written(hash, files, data);
      && (MailStore.BlobPath(x) in after <==> MailStore.BlobPath(x) in files || x == hash(data))
      && (MailStore.BlobPath(x) in files ==> after[MailStore.BlobPath(x)] == files[MailStore.BlobPath(x)])
      && (MailStore.BlobPath(x) !in files && x == hash(data) ==> after[MailStore.BlobPath(x)] == data)
  {
    hide MailStore.BlobPath;
    MailStore.PathsAreDistinct(x, hash(data));
  }

  /** Afterwards every blob of the archive is on disk with the bytes it was exported with, unless one was there already,
    * which has not changed. */
  lemma {:induction false} BlobsArrive(
    env: Env, files: map<string, string>, from: map<string, string>, blobs: seq<string>, x: string)
    requires forall d :: d in blobs ==> GoodBlob(env, from, d)
    ensures var after, path := BlobsWritten(env.hash, files, from, blobs), MailStore.BlobPath(x);
      && (path in after <==> path in files || x in blobs)
      && (path in files ==> after[path] == files[path])
      && (path !in files && x in blobs ==> path in from && after[path] == from[path])
  {
    hide MailStore.BlobPath, MailStore.Written;
    if blobs != [] {
      var init, d := blobs[..|blobs| - 1], blobs[|blobs| - 1];
      BlobsArrive(env, files, from, init, x);
      assert blobs == init + [d];
      assert GoodBlob(env, from, d);
      OneBlobWritten(env.hash, BlobsWritten(env.hash, files, from, init), from[MailStore.BlobPath(d)], x);
    }
  }

  // ---------------------------------------------------------------- there and back

  /** Primary and unique keys of the tables fetched, and digests that are intact where they are on disk. */
  ghost predicate FetchedOk(env: Env, files: map<string, string>, f: Fetched) {
    && DistinctIds(f.messages) && DistinctParts(f.attachments)
    && DistinctKeys(f.knownKeys) && DistinctRotations(f.rotations)
    && (forall a :: a in f.attachments ==> IsAttachedTo(f.messages, a))
    && (forall m :: m in f.messages && BlobIsThere(files, m) ==> GoodBlob(env, files, m.mail.blob))
  }

  lemma ExportedBlobsAreGood(env: Env, files: map<string, string>, f: Fetched)
    requires FetchedOk(env, files, f)
    ensures forall d :: d in Exported(files, f.messages, f.attachments).blobs ==> GoodBlob(env, files, d)
  {
    hide GoodBlob, Exported, DistinctIds, DistinctParts, DistinctKeys, DistinctRotations;
    ExportIsClosed(files, f.messages, f.attachments);
    forall d | d in Exported(files, f.messages, f.attachments).blobs ensures GoodBlob(env, files, d) {
      var m :| m in Exported(files, f.messages, f.attachments).messages && m.mail.blob == d;
    }
  }

  /** An export is accepted if and only if the importing account has the same active key and the archive is not
    * longer than an import reads: seven documents and the blobs. */
  lemma ExportIsAccepted(env: Env, files: map<string, string>, fp: string, armored: string, f: Fetched,
                         b: Account, mine: string)
    requires CodecsOk(env) && FetchedOk(env, files, f)
    ensures var e := Exported(files, f.messages, f.attachments);
            var (after, r) := Imported(env, b, Some(mine), ArchiveOf(env, files, fp, armored, f));
            && (r.Ok? <==> GoText.EqualFold(fp, mine) && 7 + |e.blobs| <= MAX_TAR_ENTRIES)
            && (r.Ok? ==>
                  var read := Reading(7 + |e.blobs|, BlobsWritten(env.hash, b.files, files, e.blobs), |e.blobs|,
                                      Some(ManifestOf(fp, e, f.knownKeys, f.rotations, f.drafts)), e.messages,
                                      e.attachments, f.knownKeys, f.rotations, f.drafts);
                  (after, r) == (Account(read.files, RowsImported(b.box, read).0), Ok(RowsImported(b.box, read).1)))
  {
    hide ReadAll, RowsImported, CodecsOk, GoText.EqualFold, Documents, BlobEntries, BlobsWritten, GoodBlob, Exported;
    var e := Exported(files, f.messages, f.attachments);
    ExportedBlobsAreGood(env, files, f);
    hide FetchedOk;
    DocumentsAreReadBack(env, fp, mine, armored, e, f.knownKeys, f.rotations, f.drafts, b.files);
    var docs := Documents(env, fp, armored, e, f.knownKeys, f.rotations, f.drafts);
    ReadingOn(env, mine, NothingRead(b.files), docs, BlobEntries(files, e.blobs));
    if GoText.EqualFold(fp, mine) {
      BlobsAreReadBack(env, mine, ReadAll(env, mine, NothingRead(b.files), docs).0, files, e.blobs);
    }
  }

  ghost predicate AttachedAs(key: (nat, int), base: nat, k: seq<ExportedMessage>, atts: seq<ExportedAttachment>) {
    exists i, a :: 0 <= i < |k| && a in atts && a.message == k[i].id && key == (base + i, a.part)
  }

  /** `rows` holds exactly the attachments of the messages `k`, each under its message's new row. */
  ghost predicate HoldsAttachments(rows: map<(nat, int), Attachment>, base: nat, k: seq<ExportedMessage>,
                                   atts: seq<ExportedAttachment>)
  {
    && (forall i, a :: 0 <= i < |k| && a in atts && a.message == k[i].id ==>
          (base + i, a.part) in rows && rows[(base + i, a.part)] == a.attachment)
    && (forall key :: key in rows ==> AttachedAs(key, base, k, atts))
  }

  /** `box` holds exactly what was exported: the messages `k` under consecutive ids with all their fields, their
    * attachments, and all keys, rotations and drafts. */
  ghost predicate HoldsExport(box: Mailbox, base: nat, k: seq<ExportedMessage>, f: Fetched) {
    && Holds(box.messages, map[], base, k)
    && HoldsAttachments(box.attachments, base, k, f.attachments)
    && HoldsKeys(box.knownKeys, f.knownKeys)
    && HoldsRotations(box.rotations, f.rotations)
    && box.drafts == f.drafts
  }

  /** The blob is on the importing server: the one that was there, or else the exported one byte for byte; in either
    * case the text its digest names, if the importing server's blobs were intact. */
  ghost predicate BlobArrived(env: Env, files: map<string, string>, target: map<string, string>,
                              after: map<string, string>, d: string)
  {
    var path := MailStore.BlobPath(d);
    && path in after && path in files
    && after[path] == (if path in target then target[path] else files[path])
    && (MailStore.FilesOk(env.hash, target) ==> env.hash(after[path]) == d)
  }

  lemma BlobDoesArrive(env: Env, files: map<string, string>, target: map<string, string>, blobs: seq<string>, d: string)
    requires d in blobs && forall x :: x in blobs ==> GoodBlob(env, files, x)
    ensures BlobArrived(env, files, target, BlobsWritten(env.hash, target, files, blobs), d)
  {
    hide MailStore.BlobPath, BlobsWritten;
    BlobsArrive(env, target, files, blobs, d);
    assert GoodBlob(env, files, d);
  }

  /** Exporting an account and importing the archive into an empty mailbox: the kept messages arrive in order with
    * their blobs, and they are all of the exported ones if and only if no exported message matches an earlier one. */
  lemma RoundTrip(env: Env, files: map<string, string>, fp: string, armored: string, f: Fetched,
                  target: map<string, string>, base: nat, mine: string)
    requires CodecsOk(env) && FetchedOk(env, files, f)
    requires GoText.EqualFold(fp, mine)
    requires 7 + |Exported(files, f.messages, f.attachments).blobs| <= MAX_TAR_ENTRIES
    ensures var e := Exported(files, f.messages, f.attachments);
            var k := Kept([], e.messages);
            var b := Account(target, Mailbox(map[], map[], map[], map[], [], base));
            var (after, r) := Imported(env, b, Some(mine), ArchiveOf(env, files, fp, armored, f));
            && r.Ok? && HoldsExport(after.box, base, k, f)
            && (k == e.messages <==> NoTwoMatch(e.messages))
            && r.value.messages == |k| && r.value.skipped == |e.messages| - |k| && r.value.blobs == |e.blobs|
            && (forall m :: m in e.messages ==> BlobArrived(env, files, target, after.files, m.mail.blob))
  {
    hide CodecsOk, GoText.EqualFold, HasBlobsOf, BlobsWritten, NoTwoMatch, FetchedOk, HoldsExport, Holds, ArchiveOf;
    hide InsertAll, Kept, AttachAll, UpsertAll, AddRotations, MailStore.BlobPath, Exported, GoodBlob, BlobArrived;
    var e := Exported(files, f.messages, f.attachments);
    var k := Kept([], e.messages);
    var b := Account(target, Mailbox(map[], map[], map[], map[], [], base));
    ExportIsAccepted(env, files, fp, armored, f, b, mine);
    AllKeptIff(e.messages);
    var t0 := Inserting(map[], base, map[], 0, 0);
    assert Lists([], t0.messages);
    InsertedAreKept(t0, [], e.messages);
    ExportedBlobsAreGood(env, files, f);
    RowsComeBack(env, files, f, base);
    BlobsOfMessages(env, files, f);
    forall m | m in e.messages
      ensures BlobArrived(env, files, target, BlobsWritten(env.hash, target, files, e.blobs), m.mail.blob)
    {
      BlobDoesArrive(env, files, target, e.blobs, m.mail.blob);
    }
  }

  lemma BlobsOfMessages(env: Env, files: map<string, string>, f: Fetched)
    requires FetchedOk(env, files, f)
    ensures var e := Exported(files, f.messages, f.attachments); forall m :: m in e.messages ==> m.mail.blob in e.blobs
  {
    hide Exported;
    ExportIsClosed(files, f.messages, f.attachments);
  }

  lemma RowsComeBack(env: Env, files: map<string, string>, f: Fetched, base: nat)
    requires FetchedOk(env, files, f)
    ensures var e := Exported(files, f.messages, f.attachments);
            var u := InsertAll(Inserting(map[], base, map[], 0, 0), e.messages);
            HoldsExport(Mailbox(u.messages, AttachAll(map[], u.ids, e.attachments), UpsertAll(map[], f.knownKeys),
                                AddRotations(map[], f.rotations), [] + f.drafts, u.nextId),
                        base, Kept([], e.messages), f)
  {
    hide InsertAll, Kept, AttachAll, UpsertAll, AddRotations, MailStore.BlobPath, Exported, GoodBlob, DistinctParts;
    hide DistinctKeys, DistinctRotations, HoldsKeys, HoldsRotations, HoldsAttachments, Holds, PointToRows, DistinctIds;
    hide FollowTheirMessages, Injective, IsAttachedTo, BlobIsThere;
    var e := Exported(files, f.messages, f.attachments);
    var k := Kept([], e.messages);
    var t0 := Inserting(map[], base, map[], 0, 0);
    assert Lists([], t0.messages);
    ExportedIdsAreDistinct(env, files, f);
    InsertedAreKept(t0, [], e.messages);
    IdsPointToRows(t0, [], e.messages);
    KnownKeysFollow(f.knownKeys);
    RotationsFollow(f.rotations);
    ExportedFollow(env, files, f);
    KeptAreExported([], e.messages);
    var ids := InsertAll(t0, e.messages).ids;
    IdsAreInjective(ids, base, k);
    AttachmentsFollow(ids, e.attachments);
    AttachedToKept(AttachAll(map[], ids, e.attachments), ids, base, e.messages, k, f.attachments, e.attachments);
  }

  lemma ExportedFollow(env: Env, files: map<string, string>, f: Fetched)
    requires FetchedOk(env, files, f)
    ensures var e := Exported(files, f.messages, f.attachments);
            forall a :: a in e.attachments <==> a in f.attachments && IsAttachedTo(e.messages, a)
  {
    hide Exported, GoodBlob, DistinctIds, DistinctParts, DistinctKeys, DistinctRotations, BlobIsThere;
    ExportIsClosed(files, f.messages, f.attachments);
  }

  lemma ExportedIdsAreDistinct(env: Env, files: map<string, string>, f: Fetched)
    requires FetchedOk(env, files, f)
    ensures DistinctIds(Exported(files, f.messages, f.attachments).messages)
    ensures DistinctParts(Exported(files, f.messages, f.attachments).attachments)
  {
    var kept := Exported(files, f.messages, f.attachments).messages;
    FilterKeepsDistinctIds((m: ExportedMessage) => BlobIsThere(files, m), f.messages);
    FilterKeepsDistinctParts((a: ExportedAttachment) => IsAttachedTo(kept, a), f.attachments);
  }

  lemma DistinctIdsInOneMore(ms: seq<ExportedMessage>, m: ExportedMessage)
    ensures DistinctIds(ms + [m]) <==> DistinctIds(ms) && forall x :: x in ms ==> x.id != m.id
  {
    var all := ms + [m];
    if DistinctIds(all) {
      forall i, j | 0 <= i < j < |ms| ensures ms[i].id != ms[j].id { assert all[i].id != all[j].id; }
      forall x | x in ms ensures x.id != m.id {
        var i :| 0 <= i < |ms| && ms[i] == x;
        assert all[i].id != all[|ms|].id;
      }
    }
  }

  lemma {:induction false} FilterKeepsDistinctIds(keep: ExportedMessage -> bool, ms: seq<ExportedMessage>)
    requires DistinctIds(ms)
    ensures DistinctIds(Filter(keep, ms))
  {
    if ms != [] {
      hide DistinctIds;
      var init, m := ms[..|ms| - 1], ms[|ms| - 1];
      assert ms == init + [m];
      DistinctIdsInOneMore(init, m);
      FilterKeepsDistinctIds(keep, init);
      FilterIsExact(keep, init);
      DistinctIdsInOneMore(Filter(keep, init), m);
    }
  }

  lemma DistinctPartsInOneMore(atts: seq<ExportedAttachment>, a: ExportedAttachment)
    ensures DistinctParts(atts + [a]) <==>
            DistinctParts(atts) && forall x :: x in atts ==> x.message != a.message || x.part != a.part
  {
    var all := atts + [a];
    if DistinctParts(all) {
      forall i, j | 0 <= i < j < |atts| ensures atts[i].message != atts[j].message || atts[i].part != atts[j].part {
        assert all[i].message != all[j].message || all[i].part != all[j].part;
      }
      forall x | x in atts ensures x.message != a.message || x.part != a.part {
        var i :| 0 <= i < |atts| && atts[i] == x;
        assert all[i].message != all[|atts|].message || all[i].part != all[|atts|].part;
      }
    }
  }

  lemma {:induction false} FilterKeepsDistinctParts(keep: ExportedAttachment -> bool, atts: seq<ExportedAttachment>)
    requires DistinctParts(atts)
    ensures DistinctParts(Filter(keep, atts))
  {
    if atts != [] {
      hide DistinctParts;
      var init, a := atts[..|atts| - 1], atts[|atts| - 1];
      assert atts == init + [a];
      DistinctPartsInOneMore(init, a);
      FilterKeepsDistinctParts(keep, init);
      FilterIsExact(keep, init);
      DistinctPartsInOneMore(Filter(keep, init), a);
    }
  }

  lemma IdsAreInjective(ids: map<nat, nat>, base: nat, k: seq<ExportedMessage>)
    requires PointToRows(ids, base, k)
    ensures Injective(ids)
    ensures forall x :: x in ids ==> exists i :: 0 <= i < |k| && k[i].id == x && ids[x] == base + i
  {
    forall x | x in ids ensures exists i :: 0 <= i < |k| && k[i].id == x && ids[x] == base + i {
      var m :| m in k && m.id == x;
      var i :| 0 <= i < |k| && k[i] == m;
    }
  }

  lemma AttachedToKept(rows: map<(nat, int), Attachment>, ids: map<nat, nat>, base: nat, ms: seq<ExportedMessage>,
                       k: seq<ExportedMessage>, all: seq<ExportedAttachment>, atts: seq<ExportedAttachment>)
    requires PointToRows(ids, base, k) && FollowTheirMessages(rows, ids, atts)
    requires forall m :: m in k ==> m in ms
    requires forall a :: a in atts <==> a in all && IsAttachedTo(ms, a)
    ensures HoldsAttachments(rows, base, k, all)
  {
    hide PointToRows, FollowTheirMessages, AttachedAs, IsAttachedTo;
    forall i, a | 0 <= i < |k| && a in all && a.message == k[i].id
      ensures (base + i, a.part) in rows && rows[(base + i, a.part)] == a.attachment
    {
      assert IsAttachedTo(ms, a) by { ItsMessageIsThere(ms, k[i], a); }
      UsePointToRows(ids, base, k, i);
      ItsAttachmentIsThere(rows, ids, atts, a);
    }
    forall key | key in rows ensures AttachedAs(key, base, k, all) {
      var a := ItsAttachment(rows, ids, atts, key);
      IdsAreInjective(ids, base, k);
      var i :| 0 <= i < |k| && k[i].id == a.message && ids[a.message] == base + i;
      ItIsAttached(key, base, k, all, i, a);
    }
  }

  lemma ItsMessageIsThere(ms: seq<ExportedMessage>, m: ExportedMessage, a: ExportedAttachment)
    requires m in ms && m.id == a.message
    ensures IsAttachedTo(ms, a)
  {
  }

  lemma ItsAttachmentIsThere(rows: map<(nat, int), Attachment>, ids: map<nat, nat>, atts: seq<ExportedAttachment>,
                             a: ExportedAttachment)
    requires FollowTheirMessages(rows, ids, atts) && a in atts && a.message in ids
    ensures (ids[a.message], a.part) in rows && rows[(ids[a.message], a.part)] == a.attachment
  {
  }

  lemma ItsAttachment(rows: map<(nat, int), Attachment>, ids: map<nat, nat>, atts: seq<ExportedAttachment>,
                      key: (nat, int)) returns (a: ExportedAttachment)
    requires FollowTheirMessages(rows, ids, atts) && key in rows
    ensures a in atts && a.message in ids && ids[a.message] == key.0 && a.part == key.1
  {
    assert ComesFrom(key, ids, atts);
    a :| a in atts && a.message in ids && ids[a.message] == key.0 && a.part == key.1;
  }

  lemma ItIsAttached(key: (nat, int), base: nat, k: seq<ExportedMessage>, atts: seq<ExportedAttachment>, i: nat,
                     a: ExportedAttachment)
    requires i < |k| && a in atts && a.message == k[i].id && key == (base + i, a.part)
    ensures AttachedAs(key, base, k, atts)
  {
  }

  lemma UsePointToRows(ids: map<nat, nat>, base: nat, k: seq<ExportedMessage>, i: nat)
    requires PointToRows(ids, base, k) && i < |k|
    ensures k[i].id in ids && ids[k[i].id] == base + i
  {
  }

  // ---------------------------------------------------------------- blob safety of an import

  ghost predicate BlobsPresent(files: map<string, string>, messages: map<nat, Mail>) {
    forall id :: id in messages ==> MailStore.BlobPath(messages[id].blob) in files
  }

  lemma RowsKeepBlobsIff(box: Mailbox, r: Reading, stored: seq<Mail>)
    requires FreshIds(box.messages, box.nextId) && Lists(stored, box.messages)
    requires BlobsPresent(r.files, box.messages)
    ensures BlobsPresent(r.files, RowsImported(box, r).0.messages) <==>
            forall m :: m in Kept(stored, r.messages) ==> MailStore.BlobPath(m.mail.blob) in r.files
  {
    hide InsertAll, Kept, AttachAll, UpsertAll, AddRotations, MailStore.BlobPath, Lists, FreshIds;
    var k := Kept(stored, r.messages);
    InsertedAreKept(Inserting(box.messages, box.nextId, map[], 0, 0), stored, r.messages);
    var after := RowsImported(box, r).0.messages;
    if BlobsPresent(r.files, after) {
      forall m | m in k ensures MailStore.BlobPath(m.mail.blob) in r.files {
        var i :| 0 <= i < |k| && k[i] == m;
        assert box.nextId + i in after;
      }
    }
    if forall m :: m in k ==> MailStore.BlobPath(m.mail.blob) in r.files {
      forall id | id in after ensures MailStore.BlobPath(after[id].blob) in r.files {
        if id !in box.messages {
          assert k[id - box.nextId] in k;
        }
      }
    }
  }

  /** The digests of the blob entries of an archive. */
  function BlobDigests(es: seq<Entry>): seq<string>
    decreases |es|
  {
    if es == [] then []
    else if KindOf(es[0].name) == Blob then [es[0].name[6..|es[0].name| - 4]] + BlobDigests(es[1..])
    else BlobDigests(es[1..])
  }

  /** The messages of the last message list of an archive. */
  function MessagesIn(env: Env, es: seq<Entry>, before: seq<ExportedMessage>): seq<ExportedMessage>
    decreases |es|
  {
    if es == [] then before
    else
      var listed := env.messages.parse(es[0].data);
      MessagesIn(env, es[1..], if KindOf(es[0].name) == MessagesJson && listed.Some? then listed.value else before)
  }

  lemma EntryFiles(env: Env, fp: string, r: Reading, e: Entry, x: string)
    requires ReadEntry(env, fp, r, e).Ok?
    ensures MailStore.BlobPath(x) in ReadEntry(env, fp, r, e).value.files <==>
            MailStore.BlobPath(x) in r.files || x in BlobDigests([e])
    ensures ReadEntry(env, fp, r, e).value.messages ==
            if KindOf(e.name) == MessagesJson then env.messages.parse(e.data).value else r.messages
    ensures KindOf(e.name) == MessagesJson ==> env.messages.parse(e.data).Some?
  {
    hide MailStore.BlobPath, MailStore.Written, KindOf, ValidEntryName, IsBlobName;
    assert [e][1..] == [];
    if KindOf(e.name) == Blob {
      OneBlobWritten(env.hash, r.files, e.data, x);
    }
  }

  /** What reading an archive leaves on disk and in the message list. */
  lemma {:induction false} ReadingGives(env: Env, fp: string, r: Reading, es: seq<Entry>, x: string)
    requires ReadAll(env, fp, r, es).1.None?
    ensures MailStore.BlobPath(x) in ReadAll(env, fp, r, es).0.files <==>
            MailStore.BlobPath(x) in r.files || x in BlobDigests(es)
    ensures ReadAll(env, fp, r, es).0.messages == MessagesIn(env, es, r.messages)
    decreases |es|
  {
    hide ReadEntry, MailStore.BlobPath, KindOf;
    if es != [] {
      EntryFiles(env, fp, r, es[0], x);
      assert [es[0]][1..] == [];
      ReadingGives(env, fp, ReadEntry(env, fp, r, es[0]).value, es[1..], x);
    }
  }

  /** An import checks each blob against its digest, but not that a message's blob came with it: a readable mailbox
    * stays readable if and only if every message added has its blob on disk before or among the blob entries. */
  lemma ImportKeepsBlobsIff(env: Env, a: Account, key: Option<string>, es: seq<Entry>, stored: seq<Mail>)
    requires FreshIds(a.box.messages, a.box.nextId) && Lists(stored, a.box.messages)
    requires BlobsPresent(a.files, a.box.messages)
    requires Imported(env, a, key, es).1.Ok?
    ensures var after := Imported(env, a, key, es).0;
            BlobsPresent(after.files, after.box.messages) <==>
            forall m :: m in Kept(stored, MessagesIn(env, es, [])) ==>
              MailStore.BlobPath(m.mail.blob) in a.files || m.mail.blob in BlobDigests(es)
  {
    hide ReadAll, RowsImported, Kept, MailStore.BlobPath, Lists, FreshIds, BlobDigests, MessagesIn;
    var r := ReadAll(env, key.value, NothingRead(a.files), es).0;
    forall x: string
      ensures MailStore.BlobPath(x) in r.files <==> MailStore.BlobPath(x) in a.files || x in BlobDigests(es)
      ensures r.messages == MessagesIn(env, es, [])
    {
      ReadingGives(env, key.value, NothingRead(a.files), es, x);
    }
    assert r.messages == MessagesIn(env, es, []) by { ReadingGives(env, key.value, NothingRead(a.files), es, ""); }
    RowsKeepBlobsIff(a.box, r, stored);
  }

  const NO_DETAILS := Details(None, "inbox", "", [], [], "", 0, 0, false, false, "plaintext", "none", false, None)
  const NEW_ACCOUNT := Account(map[], Mailbox(map[], map[], map[], map[], [], 0))

  /** A manifest and a message list, without any blob. */
  function BareArchive(env: Env, fp: string, ms: seq<ExportedMessage>): seq<Entry> {
    [Entry("manifest.json", env.manifest.render(Manifest(SCHEMA_VERSION, fp, |ms|, 0, 0, 0, 0))),
     Entry("messages.json", env.messages.render(ms))]
  }

  /** Nothing in it is refused. */
  lemma BareArchiveIsAccepted(env: Env, fp: string, ms: seq<ExportedMessage>)
    requires CodecsOk(env)
    ensures Imported(env, NEW_ACCOUNT, Some(fp), BareArchive(env, fp, ms)).1.Ok?
  {
    hide ReadAll, ReadEntry, KindOf, ValidEntryName, CodecsOk, GoText.EqualFold, RowsImported;
    var manifest := Manifest(SCHEMA_VERSION, fp, |ms|, 0, 0, 0, 0);
    var n1, n2 := "manifest.json", "messages.json";
    var d1, d2 := Entry(n1, env.manifest.render(manifest)), Entry(n2, env.messages.render(ms));
    DocumentNames();
    SameKeyFolds(fp);
    var e := Export(ms, [], []);
    var r0 := NothingRead(map[]);
    DocumentIsReadBack(env, fp, r0, n1, manifest, "", e, [], [], []);
    ReadingFirst(env, fp, r0, d1, [d2]);
    var r1 := r0.(count := 1, manifest := Some(manifest));
    DocumentIsReadBack(env, fp, r1, n2, manifest, "", e, [], [], []);
    ReadingOne(env, fp, r1, d2);
    assert [d1] + [d2] == BareArchive(env, fp, ms);
  }

  lemma TwoDocumentsHold(env: Env, d1: Entry, d2: Entry, ms: seq<ExportedMessage>)
    requires KindOf(d1.name) == ManifestJson && KindOf(d2.name) == MessagesJson
    requires env.messages.parse(d2.data) == Some(ms)
    ensures BlobDigests([d1, d2]) == [] && MessagesIn(env, [d1, d2], []) == ms
  {
    hide KindOf;
    assert [d1, d2][1..] == [d2] && [d2][1..] == [];
    assert BlobDigests([d2]) == [];
    assert MessagesIn(env, [d2], []) == ms;
  }

  lemma MessagesAreParsed(env: Env, ms: seq<ExportedMessage>)
    requires CodecsOk(env)
    ensures env.messages.parse(env.messages.render(ms)) == Some(ms)
  {}

  lemma BareArchiveHolds(env: Env, fp: string, ms: seq<ExportedMessage>)
    requires CodecsOk(env)
    ensures BlobDigests(BareArchive(env, fp, ms)) == [] && MessagesIn(env, BareArchive(env, fp, ms), []) == ms
  {
    hide KindOf, ValidEntryName, CodecsOk, BlobDigests, MessagesIn;
    DocumentNames();
    MessagesAreParsed(env, ms);
    var es := BareArchive(env, fp, ms);
    TwoDocumentsHold(env, es[0], es[1], ms);
    assert es == [es[0], es[1]];
  }

  /** An archive that names a message and brings no blob is accepted, and the mailbox is not readable afterwards. */
  lemma ImportCanBreakTheMailbox(env: Env, fp: string, digest: string)
    requires CodecsOk(env)
    ensures var es := BareArchive(env, fp, [ExportedMessage(0, Mail(digest, 0, None, NO_DETAILS))]);
            var (after, reply) := Imported(env, NEW_ACCOUNT, Some(fp), es);
            && BlobsPresent(NEW_ACCOUNT.files, NEW_ACCOUNT.box.messages)
            && reply.Ok? && !BlobsPresent(after.files, after.box.messages)
  {
    hide CodecsOk, Imported, BareArchive, MailStore.BlobPath, Kept;
    var m := ExportedMessage(0, Mail(digest, 0, None, NO_DETAILS));
    var es := BareArchive(env, fp, [m]);
    BareArchiveIsAccepted(env, fp, [m]);
    BareArchiveHolds(env, fp, [m]);
    assert Lists([], NEW_ACCOUNT.box.messages);
    ImportKeepsBlobsIff(env, NEW_ACCOUNT, Some(fp), es, []);
    OneIsKept(m);
    assert m in Kept([], [m]);
  }

  lemma SameKeyFolds(fp: string)
    ensures GoText.EqualFold(fp, fp)
  {
  }

  lemma OneIsKept(m: ExportedMessage)
    ensures Kept([], [m]) == [m]
  {
    assert [m][..0] == [];
    assert Kept([], []) == [];
  }
}
