/** The armored text of every key row, told from the uploads and rotations of a run alone. */
module KeyTexts {
  import opened Wrappers
  import opened RotationStatement
  import opened KeyRotation
  import opened Continuity
  import opened RotationHistory

  /** The user and the text an event uploads, if the server accepts it. */
  function Uploaded(crypto: Crypto, w: World, e: Event): Option<(string, string)> {
    match e
    case Put(_, user, armored) =>
      if PutKey(crypto, w.tables, user, armored).1 in {Created, Refreshed} then Some((user, armored)) else None
    case Rotate(at, user, address, req) =>
      if RotateKey(crypto, w.tables, at, user, address, req).1 == Created then Some((user, req.newArmored)) else None
    case _ => None
  }

  /** What the `i`-th event of a run uploads. */
  function UploadAt(crypto: Crypto, events: seq<Event>, i: nat): Option<(string, string)>
    requires i < |events|
  {
    Uploaded(crypto, Run(crypto, START_OF_TIME, events[..i]), events[i])
  }

  predicate Uploads(u: Option<(string, string)>, user: string) {
    u.Some? && u.value.0 == user
  }

  /** Event `j` is the last accepted upload of `user`, and brought `armored`. */
  ghost predicate LastUpload(crypto: Crypto, events: seq<Event>, user: string, armored: string, j: nat) {
    && j < |events| && UploadAt(crypto, events, j) == Some((user, armored))
    && forall i :: j < i < |events| ==> !Uploads(UploadAt(crypto, events, i), user)
  }

  /** Event `j` is the last accepted upload by `user` of a key with this fingerprint, and brought `armored`. */
  ghost predicate LastUploadOf(crypto: Crypto, events: seq<Event>, user: string, fp: string, armored: string, j: nat) {
    && j < |events| && UploadAt(crypto, events, j) == Some((user, armored)) && ParsedFp(crypto, armored) == fp
    && forall i :: j < i < |events| && Uploads(UploadAt(crypto, events, i), user) ==>
         ParsedFp(crypto, UploadAt(crypto, events, i).value.1) != fp
  }

  ghost predicate TextOk(crypto: Crypto, events: seq<Event>, k: KeyRow) {
    && (exists j: nat :: LastUploadOf(crypto, events, k.userId, k.fingerprint, k.armored, j))
    && (k.active ==> exists j: nat :: LastUpload(crypto, events, k.userId, k.armored, j))
  }

  // ---------------------------------------------------------------- runs from the other end

  lemma {:induction false} RunSnoc(crypto: Crypto, w: World, events: seq<Event>, e: Event)
    ensures Run(crypto, w, events + [e]) == Step(crypto, Run(crypto, w, events), e)
    ensures AllowedRun(crypto, w, events + [e]) ==>
              AllowedRun(crypto, w, events) && Allowed(crypto, Run(crypto, w, events), e)
    decreases |events|
  {
    hide Step, Allowed;
    if events == [] {
      assert [] + [e] == [e] && [e][1..] == [];
    } else {
      assert (events + [e])[1..] == events[1..] + [e];
      RunSnoc(crypto, Step(crypto, w, events[0]), events[1..], e);
    }
  }

  /** A later event leaves what was uploaded before as it is. */
  lemma UploadsStay(crypto: Crypto, events: seq<Event>, e: Event, i: nat)
    requires i < |events|
    ensures UploadAt(crypto, events + [e], i) == UploadAt(crypto, events, i)
  {
    assert (events + [e])[..i] == events[..i];
  }

  lemma NewUpload(crypto: Crypto, events: seq<Event>, e: Event)
    ensures UploadAt(crypto, events + [e], |events|) == Uploaded(crypto, Run(crypto, START_OF_TIME, events), e)
  {
    assert (events + [e])[..|events|] == events;
  }

  // ---------------------------------------------------------------- one more event

  /** The row was uploaded before, and this event uploads no key with its fingerprint. */
  lemma OldText(crypto: Crypto, events: seq<Event>, e: Event, k: KeyRow, was: KeyRow)
    requires TextOk(crypto, events, was)
    requires k.userId == was.userId && k.fingerprint == was.fingerprint && k.armored == was.armored
    requires var up := Uploaded(crypto, Run(crypto, START_OF_TIME, events), e);
             Uploads(up, k.userId) ==> !k.active && ParsedFp(crypto, up.value.1) != k.fingerprint
    requires k.active ==> was.active
    ensures TextOk(crypto, events + [e], k)
  {
    hide UploadAt, Uploaded, Run, ParsedFp;
    NewUpload(crypto, events, e);
    var j: nat :| LastUploadOf(crypto, events, was.userId, was.fingerprint, was.armored, j);
    forall i: nat | i < |events| ensures UploadAt(crypto, events + [e], i) == UploadAt(crypto, events, i) {
      UploadsStay(crypto, events, e, i);
    }
    assert LastUploadOf(crypto, events + [e], k.userId, k.fingerprint, k.armored, j);
    if k.active {
      var l: nat :| LastUpload(crypto, events, was.userId, was.armored, l);
      assert LastUpload(crypto, events + [e], k.userId, k.armored, l);
    }
  }

  /** The row is the one this event uploads. */
  lemma NewText(crypto: Crypto, events: seq<Event>, e: Event, k: KeyRow)
    requires Uploaded(crypto, Run(crypto, START_OF_TIME, events), e) == Some((k.userId, k.armored))
    requires ParsedFp(crypto, k.armored) == k.fingerprint
    ensures TextOk(crypto, events + [e], k)
  {
    hide UploadAt, Uploaded, Run, ParsedFp;
    NewUpload(crypto, events, e);
    assert LastUploadOf(crypto, events + [e], k.userId, k.fingerprint, k.armored, |events|);
    assert LastUpload(crypto, events + [e], k.userId, k.armored, |events|);
  }

  /** Every row after the event is an old one with the text it had, or the one the event uploads. */
  ghost predicate RowFollows(crypto: Crypto, w: World, e: Event, k: KeyRow) {
    var up := Uploaded(crypto, w, e);
    || (up == Some((k.userId, k.armored)) && ParsedFp(crypto, k.armored) == k.fingerprint)
    || exists i :: 0 <= i < |w.tables.keys| && OldRow(crypto, w.tables.keys[i], up, k)
  }

  ghost predicate OldRow(crypto: Crypto, was: KeyRow, up: Option<(string, string)>, k: KeyRow) {
    && k.userId == was.userId && k.fingerprint == was.fingerprint && k.armored == was.armored
    && (Uploads(up, k.userId) ==> !k.active && ParsedFp(crypto, up.value.1) != k.fingerprint)
    && (k.active ==> was.active)
  }

  lemma PutFollows(crypto: Crypto, w: World, e: Event, k: KeyRow)
    requires KeysInv(crypto, w) && e.Put? && k in Step(crypto, w, e).tables.keys
    ensures RowFollows(crypto, w, e, k)
  {
    hide GoodKey, Holds, Owned, IsFingerprint;
    var keys, keys' := w.tables.keys, Step(crypto, w, e).tables.keys;
    var i :| 0 <= i < |keys'| && keys'[i] == k;
    var reply := PutKey(crypto, w.tables, e.user, e.armored).1;
    var up := Uploaded(crypto, w, e);
    if i < |keys| {
      assert KeyMatches(keys[i], Hist(w, keys[i].userId));
      if reply == Refreshed && keys[i].userId == e.user {
        var a := FindActive(keys, e.user).value;
        assert KeyMatches(keys[a], Hist(w, e.user));
        if keys[i].active {
          assert up == Some((k.userId, k.armored)) && ParsedFp(crypto, k.armored) == k.fingerprint;
        } else {
          assert OldRow(crypto, keys[i], up, k);
        }
      } else {
        assert OldRow(crypto, keys[i], up, k);
      }
    }
  }

  lemma RotateFollows(crypto: Crypto, w: World, e: Event, k: KeyRow)
    requires KeysInv(crypto, w) && Allowed(crypto, w, e) && e.Rotate? && k in Step(crypto, w, e).tables.keys
    ensures RowFollows(crypto, w, e, k)
  {
    hide GoodKey, KeyMatches, Owned, IsFingerprint, Statement, Recorded, Activated, Deactivated, NotShared;
    var keys, keys' := w.tables.keys, Step(crypto, w, e).tables.keys;
    var i :| 0 <= i < |keys'| && keys'[i] == k;
    var reply := RotateKey(crypto, w.tables, e.at, e.user, e.address, e.req).1;
    var fp := ParsedFp(crypto, e.req.newArmored);
    if reply == Created {
      ActivatedRows(keys, e.user, fp, e.req.newArmored);
      assert keys' == Activated(Deactivated(keys, e.user), e.user, fp, e.req.newArmored);
      if i < |keys| && keys[i].fingerprint != fp {
        assert OldRow(crypto, keys[i], Uploaded(crypto, w, e), k);
      } else if i < |keys| {
        assert keys[i].userId == e.user by { UseNotShared(keys, e.user, fp, i); }
      }
    } else {
      assert keys' == keys;
      assert OldRow(crypto, keys[i], Uploaded(crypto, w, e), k);
    }
  }

  lemma UseNotShared(keys: seq<KeyRow>, user: string, fp: string, i: nat)
    requires NotShared(keys, user, fp) && i < |keys| && keys[i].fingerprint == fp
    ensures keys[i].userId == user
  {}

  lemma OthersFollow(crypto: Crypto, w: World, e: Event, k: KeyRow)
    requires (e.Issue? || e.Delete?) && k in Step(crypto, w, e).tables.keys
    ensures RowFollows(crypto, w, e, k)
  {
    assert k in w.tables.keys;
    var i :| 0 <= i < |w.tables.keys| && w.tables.keys[i] == k;
    assert OldRow(crypto, w.tables.keys[i], Uploaded(crypto, w, e), k);
  }

  // ---------------------------------------------------------------- the result

  /** After any run, the text of every key is the one last uploaded for it by its owner, and that of the active key is
    * the one last uploaded by its owner at all: a repeated upload replaces the text, and nothing else does. */
  lemma {:induction false} TextsAreTheLastUploaded(crypto: Crypto, events: seq<Event>)
    requires HexFingerprints(crypto) && AllowedRun(crypto, START_OF_TIME, events)
    ensures forall k :: k in Run(crypto, START_OF_TIME, events).tables.keys ==> TextOk(crypto, events, k)
    decreases |events|
  {
    hide HexFingerprints, Allowed, Step, TextOk, Inv;
    if events != [] {
      var init, e := events[..|events| - 1], events[|events| - 1];
      assert events == init + [e];
      RunSnoc(crypto, START_OF_TIME, init, e);
      TextsAreTheLastUploaded(crypto, init);
      InitiallyHolds(crypto);
      RunKeeps(crypto, START_OF_TIME, init);
      hide Run, AllowedRun;
      var w := Run(crypto, START_OF_TIME, init);
      forall k | k in Run(crypto, START_OF_TIME, events).tables.keys ensures TextOk(crypto, events, k) {
        RowStays(crypto, init, e, k);
      }
    }
  }

  lemma RowStays(crypto: Crypto, events: seq<Event>, e: Event, k: KeyRow)
    requires var w := Run(crypto, START_OF_TIME, events);
             && Inv(crypto, w) && Allowed(crypto, w, e) && k in Step(crypto, w, e).tables.keys
             && forall x :: x in w.tables.keys ==> TextOk(crypto, events, x)
    ensures TextOk(crypto, events + [e], k)
  {
    hide Allowed, Step, TextOk, KeysInv, Run, Uploaded, ParsedFp, HistInv, RowsInv, NoncesInv;
    var w := Run(crypto, START_OF_TIME, events);
    if e.Put? {
      PutFollows(crypto, w, e, k);
    } else if e.Rotate? {
      RotateFollows(crypto, w, e, k);
    } else {
      OthersFollow(crypto, w, e, k);
    }
    if Uploaded(crypto, w, e) == Some((k.userId, k.armored)) && ParsedFp(crypto, k.armored) == k.fingerprint {
      NewText(crypto, events, e, k);
    } else {
      var i :| 0 <= i < |w.tables.keys| && OldRow(crypto, w.tables.keys[i], Uploaded(crypto, w, e), k);
      OldText(crypto, events, e, k, w.tables.keys[i]);
    }
  }
}
