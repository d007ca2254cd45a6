/** Runs of the key handlers: what the tables say about the keys each user has held, and when. */
module RotationHistory {
  import opened Wrappers
  import opened Text
  import opened GoText
  import opened RotationStatement
  import opened KeyRotation
  import opened Continuity

  /** One key becoming a user's active key. */
  datatype Visit = Visit(fp: string, at: int)

  datatype Event =
    | Put(at: int, user: string, armored: string)
    | Issue(at: int, id: string, address: string, nonce: string, purpose: Purpose)
    | Rotate(at: int, user: string, address: string, req: RotateRequest)
    | Delete(at: int, user: string)

  /** The tables, with the history of every existing user's active key and the time of the last event. */
  datatype World = World(tables: Tables, visits: map<string, seq<Visit>>, clock: int)

  const START_OF_TIME := World(Tables([], [], map[]), map[], 0)

  function Hist(w: World, user: string): seq<Visit> {
    if user in w.visits then w.visits[user] else []
  }

  function Visited(w: World, user: string, fp: string, at: int): map<string, seq<Visit>> {
    w.visits[user := Hist(w, user) + [Visit(fp, at)]]
  }

  function ParsedFp(crypto: Crypto, armored: string): string {
    match ParsePublicKey(crypto, armored)
    case Some(fp) => fp
    case None => ""
  }

  function Step(crypto: Crypto, w: World, e: Event): World {
    match e
    case Put(at, user, armored) =>
      var (t, reply) := PutKey(crypto, w.tables, user, armored);
      var visits := if reply == Created then Visited(w, user, ParsedFp(crypto, armored), at) else w.visits;
      World(t, visits, at)
    case Issue(at, id, address, nonce, purpose) =>
      var challenge := Challenge(address, nonce, purpose, false, at);
      World(w.tables.(challenges := w.tables.challenges[id := challenge]), w.visits, at)
    case Rotate(at, user, address, req) =>
      var (t, reply) := RotateKey(crypto, w.tables, at, user, address, req);
      var visits := if reply == Created then Visited(w, user, ParsedFp(crypto, req.newArmored), at) else w.visits;
      World(t, visits, at)
    case Delete(at, user) => World(UserDeleted(w.tables, user), w.visits - {user}, at)
  }

  function Run(crypto: Crypto, w: World, events: seq<Event>): World
    decreases |events|
  {
    if events == [] then w else Run(crypto, Step(crypto, w, events[0]), events[1..])
  }

  /** Nobody but `user` holds this fingerprint. */
  ghost predicate NotShared(keys: seq<KeyRow>, user: string, fp: string) {
    forall i :: 0 <= i < |keys| && keys[i].fingerprint == fp ==> keys[i].userId == user
  }

  /** Time moves on; challenge ids are fresh and nonces hexadecimal; no key is presented by two users. */
  ghost predicate Allowed(crypto: Crypto, w: World, e: Event) {
    && w.clock < e.at
    && match e
       case Put(_, _, _) => true
       case Issue(_, id, _, nonce, _) => IsNonce(nonce) && id !in w.tables.challenges
       case Rotate(_, user, _, req) => NotShared(w.tables.keys, user, ParsedFp(crypto, req.newArmored))
       case Delete(_, _) => true
  }

  ghost predicate AllowedRun(crypto: Crypto, w: World, events: seq<Event>)
    decreases |events|
  {
    events == [] || (Allowed(crypto, w, events[0]) && AllowedRun(crypto, Step(crypto, w, events[0]), events[1..]))
  }

  /** Fingerprints are printed as upper-case hexadecimal, of whatever length the key's version has. */
  ghost predicate HexFingerprints(crypto: Crypto) {
    forall armored :: crypto.fingerprint(armored).Some? ==> IsFingerprint(crypto.fingerprint(armored).value)
  }

  // ---------------------------------------------------------------- the invariant

  ghost predicate UniqueKeys(keys: seq<KeyRow>) {
    forall i, j :: 0 <= i < j < |keys| ==> keys[i].fingerprint != keys[j].fingerprint
  }

  ghost predicate GoodKey(crypto: Crypto, k: KeyRow) {
    crypto.fingerprint(k.armored) == Some(k.fingerprint) && IsFingerprint(k.fingerprint)
  }

  ghost predicate Holds(h: seq<Visit>, fp: string) {
    exists k :: 0 <= k < |h| && h[k].fp == fp
  }

  function Last(h: seq<Visit>): Visit
    requires h != []
  {
    h[|h| - 1]
  }

  /** The row belongs to its user's history and is active exactly when it is the latest visit. */
  ghost predicate KeyMatches(k: KeyRow, h: seq<Visit>) {
    Holds(h, k.fingerprint) && (k.active <==> k.fingerprint == Last(h).fp)
  }

  ghost predicate Owned(keys: seq<KeyRow>, user: string, fp: string) {
    exists i :: 0 <= i < |keys| && keys[i].userId == user && keys[i].fingerprint == fp
  }

  ghost predicate KeysInv(crypto: Crypto, w: World) {
    var keys := w.tables.keys;
    && UniqueKeys(keys)
    && (forall i :: 0 <= i < |keys| ==> GoodKey(crypto, keys[i]) && KeyMatches(keys[i], Hist(w, keys[i].userId)))
    && (forall u, k :: 0 <= k < |Hist(w, u)| ==> Owned(keys, u, Hist(w, u)[k].fp))
  }

  ghost predicate Increasing(h: seq<Visit>) {
    forall i, j :: 0 <= i < j < |h| ==> h[i].at < h[j].at
  }

  ghost predicate HistInv(w: World) {
    && (forall u :: Increasing(Hist(w, u)))
    && (forall u, k :: 0 <= k < |Hist(w, u)| ==> Hist(w, u)[k].at <= w.clock)
  }

  /** Row `r` records the rotation made at the end of visit `i`. */
  ghost predicate Records(r: Rotation, h: seq<Visit>, i: int) {
    0 <= i < |h| - 1 && r.oldFp == h[i].fp && r.newFp == h[i + 1].fp && r.createdAt == h[i + 1].at
  }

  ghost predicate RowInv(crypto: Crypto, w: World, r: Rotation) {
    && IsFingerprint(r.oldFp) && IsFingerprint(r.newFp)
    && Attested(crypto, r, r.oldFp, r.newFp)
    && exists i :: Records(r, Hist(w, r.userId), i)
  }

  /** Some row of `u` carries the rotation of visit `i`, refreshed no earlier than that. */
  ghost predicate Covered(rows: seq<Rotation>, u: string, h: seq<Visit>, i: int)
    requires 0 <= i < |h| - 1
  {
    exists k :: 0 <= k < |rows| && rows[k].userId == u
      && rows[k].oldFp == h[i].fp && rows[k].newFp == h[i + 1].fp && rows[k].createdAt >= h[i + 1].at
  }

  ghost predicate RowsInv(crypto: Crypto, w: World) {
    var rows := w.tables.rotations;
    && (forall k :: 0 <= k < |rows| ==> RowInv(crypto, w, rows[k]))
    && (forall u, i :: 0 <= i < |Hist(w, u)| - 1 ==> Covered(rows, u, Hist(w, u), i))
  }

  ghost predicate NoncesInv(w: World) {
    forall id :: id in w.tables.challenges ==> IsNonce(w.tables.challenges[id].nonce)
  }

  ghost predicate Inv(crypto: Crypto, w: World) {
    KeysInv(crypto, w) && HistInv(w) && RowsInv(crypto, w) && NoncesInv(w)
  }

  // ---------------------------------------------------------------- one rotation keeps it

  lemma UpperOfFingerprint(fp: string)
    requires IsFingerprint(fp)
    ensures ToUpper(fp) == fp
  {}

  /** What a handler about to record a rotation knows. */
  lemma FreshRowIsAttested(crypto: Crypto, from: KeyRow, newFp: string, nonce: string, row: Rotation)
    requires crypto.fingerprint(from.armored) == Some(from.fingerprint)
    requires IsFingerprint(from.fingerprint) && IsFingerprint(newFp) && IsNonce(nonce)
    requires row.oldArmored == from.armored && row.statement == Statement(from.fingerprint, newFp, nonce)
    requires crypto.verify(row.oldArmored, row.statement, row.attestation)
    ensures Attested(crypto, row, from.fingerprint, newFp)
  {
    hide Statement, Contains, ToUpper;
    OldIsNamed(from.fingerprint, newFp, nonce, from.fingerprint);
    NewIsNamed(from.fingerprint, newFp, nonce, newFp);
  }

  /** The key table after a rotation, row by row. */
  lemma ActivatedRows(keys: seq<KeyRow>, user: string, fp: string, armored: string)
    requires UniqueKeys(keys) && NotShared(keys, user, fp)
    ensures var keys' := Activated(Deactivated(keys, user), user, fp, armored);
            && UniqueKeys(keys')
            && |keys| <= |keys'| <= |keys| + 1
            && (forall i :: 0 <= i < |keys| ==>
                  && keys'[i].fingerprint == keys[i].fingerprint && keys'[i].userId == keys[i].userId
                  && (keys[i].fingerprint == fp ==> keys'[i].active && keys'[i].armored == armored)
                  && (keys[i].fingerprint != fp ==>
                        && keys'[i].armored == keys[i].armored
                        && keys'[i].active == (keys[i].active && keys[i].userId != user)))
            && (|keys'| > |keys| ==> keys'[|keys|] == KeyRow(user, fp, armored, true))
            && Owned(keys', user, fp)
  {
    var off := Deactivated(keys, user);
    var keys' := Activated(off, user, fp, armored);
    match FindKey(off, fp)
    case Some(i) => assert keys'[i].userId == user && keys'[i].fingerprint == fp;
    case None => assert keys'[|keys|].userId == user && keys'[|keys|].fingerprint == fp;
  }

  lemma HoldsLonger(h: seq<Visit>, v: Visit, fp: string)
    ensures Holds(h + [v], fp) <==> Holds(h, fp) || v.fp == fp
  {
    var h' := h + [v];
    if Holds(h, fp) {
      var k :| 0 <= k < |h| && h[k].fp == fp;
      assert h'[k].fp == fp;
    }
    if v.fp == fp {
      assert h'[|h|].fp == fp;
    }
  }

  lemma OwnedKept(keys: seq<KeyRow>, keys': seq<KeyRow>, user: string, fp: string)
    requires Owned(keys, user, fp) && |keys| <= |keys'|
    requires forall i :: 0 <= i < |keys| ==>
               keys'[i].fingerprint == keys[i].fingerprint && keys'[i].userId == keys[i].userId
    ensures Owned(keys', user, fp)
  {
    var i :| 0 <= i < |keys| && keys[i].userId == user && keys[i].fingerprint == fp;
    assert keys'[i].userId == user && keys'[i].fingerprint == fp;
  }

  lemma KeysAfterRotation(
    crypto: Crypto, w: World, w': World, user: string, fp: string, armored: string, at: int)
    requires KeysInv(crypto, w) && NotShared(w.tables.keys, user, fp)
    requires crypto.fingerprint(armored) == Some(fp) && IsFingerprint(fp)
    requires w'.tables.keys == Activated(Deactivated(w.tables.keys, user), user, fp, armored)
    requires w'.visits == Visited(w, user, fp, at)
    ensures KeysInv(crypto, w')
  {
    hide Activated, Deactivated, IsFingerprint, Holds, Owned;
    var keys, keys', h := w.tables.keys, w'.tables.keys, Hist(w, user);
    ActivatedRows(keys, user, fp, armored);
    assert Hist(w', user) == h + [Visit(fp, at)];
    assert forall u :: u != user ==> Hist(w', u) == Hist(w, u);
    forall i | 0 <= i < |keys'|
      ensures GoodKey(crypto, keys'[i]) && KeyMatches(keys'[i], Hist(w', keys'[i].userId))
    {
      HoldsLonger(h, Visit(fp, at), keys'[i].fingerprint);
      if i < |keys| {
        assert GoodKey(crypto, keys[i]) && KeyMatches(keys[i], Hist(w, keys[i].userId));
      }
    }
    forall u, k | 0 <= k < |Hist(w', u)| ensures Owned(keys', u, Hist(w', u)[k].fp) {
      if u == user && k == |h| {
      } else {
        assert Hist(w', u)[k] == Hist(w, u)[k];
        assert Owned(keys, u, Hist(w, u)[k].fp);
        OwnedKept(keys, keys', u, Hist(w, u)[k].fp);
      }
    }
  }

  lemma IncreasingAppend(h: seq<Visit>, v: Visit, clock: int)
    requires Increasing(h) && clock < v.at && forall k :: 0 <= k < |h| ==> h[k].at <= clock
    ensures Increasing(h + [v]) && forall k :: 0 <= k < |h + [v]| ==> (h + [v])[k].at <= v.at
  {}

  lemma HistAfterVisit(w: World, w': World, user: string, fp: string, at: int)
    requires HistInv(w) && w.clock < at && w'.clock == at && w'.visits == Visited(w, user, fp, at)
    ensures HistInv(w')
  {
    hide Increasing;
    var h, v := Hist(w, user), Visit(fp, at);
    assert Hist(w', user) == h + [v];
    assert forall u :: u != user ==> Hist(w', u) == Hist(w, u);
    assert Increasing(h) && forall k :: 0 <= k < |h| ==> Hist(w, user)[k].at <= w.clock;
    IncreasingAppend(h, v, w.clock);
    forall u ensures Increasing(Hist(w', u)) {
      assert u != user ==> Increasing(Hist(w, u));
    }
    forall u, k | 0 <= k < |Hist(w', u)| ensures Hist(w', u)[k].at <= at {
      assert u != user ==> Hist(w, u)[k].at <= w.clock;
    }
  }

  lemma RecordedRows(rows: seq<Rotation>, r: Rotation)
    ensures var rows' := Recorded(rows, r);
            && (exists k :: 0 <= k < |rows'| && rows'[k] == r)
            && (forall k :: 0 <= k < |rows'| ==> rows'[k] == r || rows'[k] in rows)
            && (forall k :: 0 <= k < |rows| && rows[k] !in rows' ==>
                  rows[k].userId == r.userId && rows[k].oldFp == r.oldFp && rows[k].newFp == r.newFp)
  {
    var rows' := Recorded(rows, r);
    match FindRotation(rows, r.userId, r.oldFp, r.newFp)
    case Some(i) =>
      assert rows'[i] == r;
      assert forall k :: 0 <= k < |rows| && k != i ==> rows'[k] == rows[k];
    case None =>
      assert rows'[|rows|] == r;
      assert forall k :: 0 <= k < |rows| ==> rows'[k] == rows[k];
  }

  lemma RowKept(crypto: Crypto, w: World, w': World, user: string, v: Visit, r: Rotation)
    requires RowInv(crypto, w, r) && w'.visits == Visited(w, user, v.fp, v.at)
    ensures RowInv(crypto, w', r)
  {
    hide Attested, IsFingerprint;
    var i :| Records(r, Hist(w, r.userId), i);
    assert Records(r, Hist(w', r.userId), i);
  }

  lemma CoveredKept(rows: seq<Rotation>, r: Rotation, u: string, h: seq<Visit>, h': seq<Visit>, i: int)
    requires 0 <= i < |h| - 1 && h <= h' && Covered(rows, u, h, i)
    requires r.userId == u ==> r.createdAt >= h[i + 1].at
    ensures Covered(Recorded(rows, r), u, h', i)
  {
    hide Recorded;
    RecordedRows(rows, r);
    var rows' := Recorded(rows, r);
    var k :| 0 <= k < |rows| && rows[k].userId == u
      && rows[k].oldFp == h[i].fp && rows[k].newFp == h[i + 1].fp && rows[k].createdAt >= h[i + 1].at;
    if rows[k] in rows' {
      var j :| 0 <= j < |rows'| && rows'[j] == rows[k];
    } else {
      var j :| 0 <= j < |rows'| && rows'[j] == r;
    }
  }

  lemma RowsAfterRotation(crypto: Crypto, w: World, w': World, user: string, row: Rotation)
    requires RowsInv(crypto, w) && HistInv(w) && w.clock < row.createdAt
    requires Hist(w, user) != [] && row.userId == user && row.oldFp == Last(Hist(w, user)).fp
    requires IsFingerprint(row.oldFp) && IsFingerprint(row.newFp) && Attested(crypto, row, row.oldFp, row.newFp)
    requires w'.tables.rotations == Recorded(w.tables.rotations, row)
    requires w'.visits == Visited(w, user, row.newFp, row.createdAt)
    ensures RowsInv(crypto, w')
  {
    hide Recorded, Attested, IsFingerprint;
    var rows, rows', h := w.tables.rotations, w'.tables.rotations, Hist(w, user);
    var v := Visit(row.newFp, row.createdAt);
    assert Hist(w', user) == h + [v];
    assert forall u :: u != user ==> Hist(w', u) == Hist(w, u);
    RecordedRows(rows, row);
    assert Records(row, Hist(w', user), |h| - 1);
    forall k | 0 <= k < |rows'| ensures RowInv(crypto, w', rows'[k]) {
      if rows'[k] != row {
        RowKept(crypto, w, w', user, v, rows'[k]);
      }
    }
    forall u, i | 0 <= i < |Hist(w', u)| - 1 ensures Covered(rows', u, Hist(w', u), i) {
      if u == user && i == |h| - 1 {
        var k :| 0 <= k < |rows'| && rows'[k] == row;
      } else {
        assert Covered(rows, u, Hist(w, u), i);
        assert Hist(w, u)[i + 1].at <= w.clock;
        CoveredKept(rows, row, u, Hist(w, u), Hist(w', u), i);
      }
    }
  }

  // ---------------------------------------------------------------- every event keeps it

  lemma ActiveIsLatest(crypto: Crypto, w: World, user: string)
    requires KeysInv(crypto, w) && FindActive(w.tables.keys, user).Some?
    ensures var k := w.tables.keys[FindActive(w.tables.keys, user).value];
            && Hist(w, user) != [] && k.fingerprint == Last(Hist(w, user)).fp
            && GoodKey(crypto, k)
  {
    var i := FindActive(w.tables.keys, user).value;
    assert KeyMatches(w.tables.keys[i], Hist(w, w.tables.keys[i].userId));
  }

  lemma RotateKeeps(crypto: Crypto, w: World, e: Event)
    requires HexFingerprints(crypto) && Inv(crypto, w) && Allowed(crypto, w, e) && e.Rotate?
    ensures Inv(crypto, Step(crypto, w, e))
  {
    hide KeysInv, HistInv, RowsInv, Attested, Activated, Deactivated, Recorded, NotShared, IsFingerprint;
    var w' := Step(crypto, w, e);
    var (t, reply) := RotateKey(crypto, w.tables, e.at, e.user, e.address, e.req);
    if reply == Created {
      var newFp := ParsedFp(crypto, e.req.newArmored);
      ActiveIsLatest(crypto, w, e.user);
      var from := w.tables.keys[FindActive(w.tables.keys, e.user).value];
      var nonce := w.tables.challenges[e.req.challengeId].nonce;
      var statement := Statement(from.fingerprint, newFp, nonce);
      var row := Rotation(
        e.user, from.fingerprint, newFp, from.armored, e.req.newArmored, e.req.oldSignature, statement, e.at);
      FreshRowIsAttested(crypto, from, newFp, nonce, row);
      KeysAfterRotation(crypto, w, w', e.user, newFp, e.req.newArmored, e.at);
      HistAfterVisit(w, w', e.user, newFp, e.at);
      RowsAfterRotation(crypto, w, w', e.user, row);
    } else {
      SameTablesKeep(crypto, w, w');
    }
  }

  /** Time passing and challenges being claimed change nothing else. */
  lemma SameTablesKeep(crypto: Crypto, w: World, w': World)
    requires KeysInv(crypto, w) && HistInv(w) && RowsInv(crypto, w)
    requires w'.tables.keys == w.tables.keys && w'.tables.rotations == w.tables.rotations
    requires w'.visits == w.visits && w.clock <= w'.clock
    ensures KeysInv(crypto, w') && HistInv(w') && RowsInv(crypto, w')
  {
    hide Attested, Covered, KeyMatches, Owned, Increasing;
    assert forall u :: Hist(w', u) == Hist(w, u);
    forall k | 0 <= k < |w'.tables.rotations| ensures RowInv(crypto, w', w'.tables.rotations[k]) {
      assert RowInv(crypto, w, w.tables.rotations[k]);
    }
  }

  lemma PutKeeps(crypto: Crypto, w: World, e: Event)
    requires HexFingerprints(crypto) && Inv(crypto, w) && Allowed(crypto, w, e) && e.Put?
    ensures Inv(crypto, Step(crypto, w, e))
  {
    hide KeysInv, HistInv, RowsInv, Rearmored, IsFingerprint;
    var w' := Step(crypto, w, e);
    var (t, reply) := PutKey(crypto, w.tables, e.user, e.armored);
    if reply == Created {
      var fp := ParsedFp(crypto, e.armored);
      FirstKeyKeeps(crypto, w, w', e.user, fp, e.armored, e.at);
    } else if reply == Refreshed {
      var i := FindActive(w.tables.keys, e.user).value;
      RearmoredKeeps(crypto, w, w', e.user, i, e.armored);
    } else {
      SameTablesKeep(crypto, w, w');
    }
  }

  lemma RearmoredKeeps(crypto: Crypto, w: World, w': World, user: string, i: nat, armored: string)
    requires KeysInv(crypto, w) && HistInv(w) && RowsInv(crypto, w)
    requires i < |w.tables.keys| && w.tables.keys[i].userId == user && w.tables.keys[i].active
    requires crypto.fingerprint(armored) == Some(w.tables.keys[i].fingerprint)
    requires w'.tables.keys == Rearmored(w.tables.keys, user, armored) && w'.tables.rotations == w.tables.rotations
    requires w'.visits == w.visits && w.clock <= w'.clock
    ensures KeysInv(crypto, w') && HistInv(w') && RowsInv(crypto, w')
  {
    hide RowsInv, HistInv, IsFingerprint, Holds, Owned;
    var keys, keys' := w.tables.keys, w'.tables.keys;
    assert forall u :: Hist(w', u) == Hist(w, u);
    OthersSame(crypto, w, w');
    assert KeyMatches(keys[i], Hist(w, user));
    forall j | 0 <= j < |keys'| ensures GoodKey(crypto, keys'[j]) && KeyMatches(keys'[j], Hist(w', keys'[j].userId)) {
      assert GoodKey(crypto, keys[j]) && KeyMatches(keys[j], Hist(w, keys[j].userId));
    }
    forall u, k | 0 <= k < |Hist(w', u)| ensures Owned(keys', u, Hist(w', u)[k].fp) {
      assert Owned(keys, u, Hist(w, u)[k].fp);
      OwnedKept(keys, keys', u, Hist(w, u)[k].fp);
    }
  }

  /** The parts of the invariant that do not look at the key table. */
  lemma OthersSame(crypto: Crypto, w: World, w': World)
    requires HistInv(w) && RowsInv(crypto, w)
    requires w'.tables.rotations == w.tables.rotations && w'.visits == w.visits && w.clock <= w'.clock
    ensures HistInv(w') && RowsInv(crypto, w')
  {
    hide Attested, Covered, Increasing;
    assert forall u :: Hist(w', u) == Hist(w, u);
    forall k | 0 <= k < |w'.tables.rotations| ensures RowInv(crypto, w', w'.tables.rotations[k]) {
      assert RowInv(crypto, w, w.tables.rotations[k]);
    }
  }

  /** A user without an active key has no history: the first upload starts it. */
  lemma FirstKeyKeeps(
    crypto: Crypto, w: World, w': World, user: string, fp: string, armored: string, at: int)
    requires KeysInv(crypto, w) && HistInv(w) && RowsInv(crypto, w)
    requires FindActive(w.tables.keys, user).None? && FindKey(w.tables.keys, fp).None?
    requires crypto.fingerprint(armored) == Some(fp) && IsFingerprint(fp) && w.clock < at && w'.clock == at
    requires w'.tables.keys == w.tables.keys + [KeyRow(user, fp, armored, true)]
    requires w'.tables.rotations == w.tables.rotations && w'.visits == Visited(w, user, fp, at)
    ensures KeysInv(crypto, w') && HistInv(w') && RowsInv(crypto, w')
  {
    hide RowsInv, HistInv, IsFingerprint, Owned, Attested;
    var keys, keys' := w.tables.keys, w'.tables.keys;
    NoActiveMeansNoHistory(crypto, w, user);
    assert Hist(w', user) == [Visit(fp, at)] && Hist(w', user)[0].fp == fp;
    assert forall u :: u != user ==> Hist(w', u) == Hist(w, u);
    HistAfterVisit(w, w', user, fp, at);
    FirstKeyRows(crypto, w, w', user, Visit(fp, at));
    assert Owned(keys', user, fp) by { NewKeyIsOwned(keys, user, fp, armored); }
    hide UniqueKeys;
    FirstKeyIsUnique(crypto, w, fp, KeyRow(user, fp, armored, true));
    FirstKeyMatches(crypto, w, w', user, fp, armored);
    hide Hist, GoodKey, KeyMatches;
    forall u, k | 0 <= k < |Hist(w', u)| ensures Owned(keys', u, Hist(w', u)[k].fp) {
      if u != user {
        assert Owned(keys, u, Hist(w, u)[k].fp);
        OwnedKept(keys, keys', u, Hist(w, u)[k].fp);
      }
    }
  }

  lemma FirstKeyIsUnique(crypto: Crypto, w: World, fp: string, row: KeyRow)
    requires KeysInv(crypto, w) && FindKey(w.tables.keys, fp).None? && row.fingerprint == fp
    ensures UniqueKeys(w.tables.keys + [row])
  {
    hide GoodKey, KeyMatches, Owned, Hist;
  }

  lemma FirstKeyMatches(crypto: Crypto, w: World, w': World, user: string, fp: string, armored: string)
    requires KeysInv(crypto, w) && Hist(w, user) == []
    requires crypto.fingerprint(armored) == Some(fp) && IsFingerprint(fp)
    requires w'.tables.keys == w.tables.keys + [KeyRow(user, fp, armored, true)]
    requires |Hist(w', user)| == 1 && Hist(w', user)[0].fp == fp
    requires forall u :: u != user ==> Hist(w', u) == Hist(w, u)
    ensures forall i :: 0 <= i < |w'.tables.keys| ==>
      GoodKey(crypto, w'.tables.keys[i]) && KeyMatches(w'.tables.keys[i], Hist(w', w'.tables.keys[i].userId))
  {
    hide IsFingerprint, Owned, UniqueKeys, Hist;
    var keys, keys' := w.tables.keys, w'.tables.keys;
    forall i | 0 <= i < |keys'| ensures GoodKey(crypto, keys'[i]) && KeyMatches(keys'[i], Hist(w', keys'[i].userId)) {
      if i < |keys| {
        assert GoodKey(crypto, keys[i]) && KeyMatches(keys[i], Hist(w, keys[i].userId));
      }
    }
  }

  lemma NewKeyIsOwned(keys: seq<KeyRow>, user: string, fp: string, armored: string)
    ensures Owned(keys + [KeyRow(user, fp, armored, true)], user, fp)
  {
    assert (keys + [KeyRow(user, fp, armored, true)])[|keys|].userId == user;
  }

  lemma HistoryMeansActive(crypto: Crypto, w: World, user: string)
    requires KeysInv(crypto, w) && Hist(w, user) != []
    ensures FindActive(w.tables.keys, user).Some?
  {
    hide GoodKey, FindActive;
    var keys, h := w.tables.keys, Hist(w, user);
    assert Owned(keys, user, Hist(w, user)[|h| - 1].fp);
    var i :| 0 <= i < |keys| && keys[i].userId == user && keys[i].fingerprint == h[|h| - 1].fp;
    assert KeyMatches(keys[i], Hist(w, keys[i].userId));
    ActiveFound(keys, user, i);
  }

  lemma NoActiveMeansNoHistory(crypto: Crypto, w: World, user: string)
    requires KeysInv(crypto, w) && FindActive(w.tables.keys, user).None?
    ensures Hist(w, user) == []
  {
    hide KeysInv;
    if Hist(w, user) != [] {
      HistoryMeansActive(crypto, w, user);
    }
  }

  lemma FirstKeyRows(crypto: Crypto, w: World, w': World, user: string, v: Visit)
    requires RowsInv(crypto, w) && Hist(w, user) == []
    requires w'.tables.rotations == w.tables.rotations && w'.visits == Visited(w, user, v.fp, v.at)
    ensures RowsInv(crypto, w')
  {
    hide Attested, Covered;
    assert Hist(w', user) == [v];
    assert forall u :: u != user ==> Hist(w', u) == Hist(w, u);
    forall k | 0 <= k < |w'.tables.rotations| ensures RowInv(crypto, w', w'.tables.rotations[k]) {
      RowKept(crypto, w, w', user, v, w.tables.rotations[k]);
    }
  }

  lemma {:induction false} UniqueWithout(keys: seq<KeyRow>, user: string)
    requires UniqueKeys(keys)
    ensures UniqueKeys(KeysWithout(keys, user))
    decreases |keys|
  {
    if keys != [] {
      var init, last := keys[..|keys| - 1], keys[|keys| - 1];
      UniqueWithout(init, user);
      forall k | k in KeysWithout(init, user) ensures k.fingerprint != last.fingerprint {
        assert k in init;
      }
    }
  }

  lemma OwnedWithout(keys: seq<KeyRow>, user: string, u: string, fp: string)
    requires Owned(keys, u, fp) && u != user
    ensures Owned(KeysWithout(keys, user), u, fp)
  {
    var i :| 0 <= i < |keys| && keys[i].userId == u && keys[i].fingerprint == fp;
    assert keys[i] in KeysWithout(keys, user);
  }

  lemma CoveredWithout(rows: seq<Rotation>, user: string, u: string, h: seq<Visit>, i: int)
    requires 0 <= i < |h| - 1 && Covered(rows, u, h, i) && u != user
    ensures Covered(RotationsWithout(rows, user), u, h, i)
  {
    var k :| 0 <= k < |rows| && rows[k].userId == u
      && rows[k].oldFp == h[i].fp && rows[k].newFp == h[i + 1].fp && rows[k].createdAt >= h[i + 1].at;
    assert rows[k] in RotationsWithout(rows, user);
  }

  /** A deleted user leaves no key, no rotation and no history, and nobody else's change. */
  lemma DeleteKeeps(crypto: Crypto, w: World, e: Event)
    requires Inv(crypto, w) && Allowed(crypto, w, e) && e.Delete?
    ensures Inv(crypto, Step(crypto, w, e))
  {
    hide GoodKey, KeyMatches, Owned, Covered, UniqueKeys, Attested, IsFingerprint, Records, KeysWithout,
      RotationsWithout;
    var w' := Step(crypto, w, e);
    var keys, keys', rows, rows' := w.tables.keys, w'.tables.keys, w.tables.rotations, w'.tables.rotations;
    assert forall u :: Hist(w', u) == if u == e.user then [] else Hist(w, u);
    UniqueWithout(keys, e.user);
    forall i | 0 <= i < |keys'| ensures GoodKey(crypto, keys'[i]) && KeyMatches(keys'[i], Hist(w', keys'[i].userId)) {
      assert keys'[i] in keys && keys'[i].userId != e.user;
    }
    forall u, k | 0 <= k < |Hist(w', u)| ensures Owned(keys', u, Hist(w', u)[k].fp) {
      assert Owned(keys, u, Hist(w, u)[k].fp);
      OwnedWithout(keys, e.user, u, Hist(w, u)[k].fp);
    }
    forall u ensures Increasing(Hist(w', u)) {
      assert Increasing(Hist(w, u));
    }
    forall k | 0 <= k < |rows'| ensures RowInv(crypto, w', rows'[k]) {
      assert rows'[k] in rows && rows'[k].userId != e.user;
    }
    forall u, i | 0 <= i < |Hist(w', u)| - 1 ensures Covered(rows', u, Hist(w', u), i) {
      assert Covered(rows, u, Hist(w, u), i);
      CoveredWithout(rows, e.user, u, Hist(w, u), i);
    }
  }

  lemma StepKeeps(crypto: Crypto, w: World, e: Event)
    requires HexFingerprints(crypto) && Inv(crypto, w) && Allowed(crypto, w, e)
    ensures Inv(crypto, Step(crypto, w, e))
  {
    match e
    case Put(_, _, _) => PutKeeps(crypto, w, e);
    case Rotate(_, _, _, _) => RotateKeeps(crypto, w, e);
    case Delete(_, _) => DeleteKeeps(crypto, w, e);
    case Issue(_, _, _, _, _) =>
      hide KeysInv, HistInv, RowsInv;
      SameTablesKeep(crypto, w, Step(crypto, w, e));
  }

  /** The invariant holds throughout every run. */
  lemma {:induction false} RunKeeps(crypto: Crypto, w: World, events: seq<Event>)
    requires HexFingerprints(crypto) && Inv(crypto, w) && AllowedRun(crypto, w, events)
    ensures Inv(crypto, Run(crypto, w, events))
    decreases |events|
  {
    hide Inv, HexFingerprints, Allowed, Step;
    if events != [] {
      StepKeeps(crypto, w, events[0]);
      RunKeeps(crypto, Step(crypto, w, events[0]), events[1..]);
    }
  }

  lemma InitiallyHolds(crypto: Crypto)
    ensures Inv(crypto, START_OF_TIME)
  {}

  // ---------------------------------------------------------------- following the newest edges

  /** The last time a key was visited. */
  function LastVisit(h: seq<Visit>, fp: string): (d: nat)
    requires Holds(h, fp)
    ensures d < |h| && h[d].fp == fp && forall k :: d < k < |h| ==> h[k].fp != fp
  {
    if Last(h).fp == fp then |h| - 1
    else
      assert Holds(h[..|h| - 1], fp) by {
        var k :| 0 <= k < |h| && h[k].fp == fp;
        assert h[..|h| - 1][k].fp == fp;
      }
      LastVisit(h[..|h| - 1], fp)
  }

  lemma VisitHolds(h: seq<Visit>, d: nat)
    requires d < |h|
    ensures Holds(h, h[d].fp)
  {}

  /** How many rotations separate a visit from the latest key once every detour back to the same key is cut. */
  ghost function Hops(h: seq<Visit>, d: nat): nat
    requires d < |h|
    decreases |h| - d
  {
    if h[d].fp == Last(h).fp then 0
    else
      VisitHolds(h, d);
      1 + Hops(h, LastVisit(h, h[d].fp) + 1)
  }

  /** Two users never own the same key, so a row leaving a user's key is that user's row. */
  lemma OwnerIsUnique(keys: seq<KeyRow>, u: string, v: string, fp: string)
    requires UniqueKeys(keys) && Owned(keys, u, fp) && Owned(keys, v, fp)
    ensures u == v
  {
    var i :| 0 <= i < |keys| && keys[i].userId == u && keys[i].fingerprint == fp;
    var j :| 0 <= j < |keys| && keys[j].userId == v && keys[j].fingerprint == fp;
    assert i == j;
  }

  /** The newest edge out of a key is the one its owner took when last leaving it. */
  lemma NewestIsLastDeparture(crypto: Crypto, w: World, u: string, d: nat)
    requires Inv(crypto, w) && d < |Hist(w, u)| - 1
    requires forall k :: d < k < |Hist(w, u)| ==> Hist(w, u)[k].fp != Hist(w, u)[d].fp
    ensures var h := Hist(w, u);
            var r := Newest(w.tables.rotations, h[d].fp);
            r.Some? && r.value.newFp == h[d + 1].fp && Attested(crypto, r.value, h[d].fp, h[d + 1].fp)
              && IsFingerprint(h[d + 1].fp)
  {
    hide Attested, IsFingerprint, Newest, Owned, UniqueKeys, Increasing;
    var rows, h := w.tables.rotations, Hist(w, u);
    NewestIsLate(rows, u, h, d);
    var r := Newest(rows, h[d].fp).value;
    assert RowInv(crypto, w, r);
    var i :| Records(r, Hist(w, r.userId), i);
    assert Owned(w.tables.keys, u, Hist(w, u)[d].fp);
    assert Owned(w.tables.keys, r.userId, Hist(w, r.userId)[i].fp);
    OwnerIsUnique(w.tables.keys, u, r.userId, h[d].fp);
    hide Inv, RowInv, Covered, RowsInv, KeysInv;
    LateDepartureIsLast(h, d, i);
  }

  lemma NewestIsLate(rows: seq<Rotation>, u: string, h: seq<Visit>, d: nat)
    requires d < |h| - 1 && Covered(rows, u, h, d)
    ensures var r := Newest(rows, h[d].fp);
            r.Some? && r.value in rows && r.value.oldFp == h[d].fp && r.value.createdAt >= h[d + 1].at
  {
    hide Newest;
    var k :| 0 <= k < |rows| && rows[k].userId == u
      && rows[k].oldFp == h[d].fp && rows[k].newFp == h[d + 1].fp && rows[k].createdAt >= h[d + 1].at;
    NewestExists(rows, h[d].fp, k);
  }

  /** A departure from the key of visit `d`, the last visit to it, no earlier than the departure of `d`, is that one. */
  lemma LateDepartureIsLast(h: seq<Visit>, d: nat, i: nat)
    requires Increasing(h) && d < |h| - 1 && i < |h| - 1
    requires forall k :: d < k < |h| ==> h[k].fp != h[d].fp
    requires h[i].fp == h[d].fp && h[i + 1].at >= h[d + 1].at
    ensures i == d
  {
  }

  lemma NewestExists(rows: seq<Rotation>, cur: string, k: nat)
    requires k < |rows| && rows[k].oldFp == cur
    ensures var r := Newest(rows, cur);
            r.Some? && r.value in rows && r.value.oldFp == cur && r.value.createdAt >= rows[k].createdAt
  {}

  /** Started at any key a user ever held, the walk reaches the current key after exactly `Hops` steps. */
  lemma {:induction false} WalkTakesHops(crypto: Crypto, w: World, u: string, d: nat, looks: nat)
    requires Inv(crypto, w) && d < |Hist(w, u)|
    ensures Chain(crypto, w.tables.rotations, Hist(w, u)[d].fp, Last(Hist(w, u)).fp, looks)
        <==> Hops(Hist(w, u), d) < looks
    decreases |Hist(w, u)| - d
  {
    hide Inv, Attested;
    var h := Hist(w, u);
    if h[d].fp != Last(h).fp && looks > 0 {
      VisitHolds(h, d);
      var last := LastVisit(h, h[d].fp);
      NewestIsLastDeparture(crypto, w, u, last);
      UpperOfFingerprint(h[last + 1].fp);
      WalkTakesHops(crypto, w, u, last + 1, looks - 1);
    }
  }

  ghost function KeysFrom(h: seq<Visit>, d: nat): set<string> {
    set k | d <= k < |h| :: h[k].fp
  }

  /** The walk visits no key twice: each step leaves a key for the last time. */
  lemma {:induction false} HopsBelowKeys(h: seq<Visit>, d: nat)
    requires d < |h|
    ensures Hops(h, d) < |KeysFrom(h, d)|
    decreases |h| - d
  {
    var fp := h[d].fp;
    assert fp in KeysFrom(h, d);
    if fp != Last(h).fp {
      VisitHolds(h, d);
      var last := LastVisit(h, fp);
      HopsBelowKeys(h, last + 1);
      assert fp !in KeysFrom(h, last + 1);
      SubsetSize(KeysFrom(h, last + 1) + {fp}, KeysFrom(h, d));
    } else {
      SubsetSize({fp}, KeysFrom(h, d));
    }
  }

  lemma {:induction false} SubsetSize<T>(a: set<T>, b: set<T>)
    requires a <= b
    ensures |a| <= |b|
  {
    if a != {} {
      var x :| x in a;
      SubsetSize(a - {x}, b - {x});
    }
  }

  lemma {:induction false} StraightHops(h: seq<Visit>, d: nat)
    requires d < |h| && forall i, j :: 0 <= i < j < |h| ==> h[i].fp != h[j].fp
    ensures Hops(h, d) == |h| - 1 - d
    decreases |h| - d
  {
    if d < |h| - 1 {
      VisitHolds(h, d);
      StraightHops(h, d + 1);
    }
  }

  // ---------------------------------------------------------------- main results

  /** After any run, and from any key a user ever held, continuity to the current key verifies exactly
    * when at most fifteen rotations remain once detours are cut; sixteen distinct keys always suffice.
    */
  lemma RotationCompleteness(crypto: Crypto, events: seq<Event>, u: string, d: nat)
    requires HexFingerprints(crypto) && AllowedRun(crypto, START_OF_TIME, events)
    requires d < |Hist(Run(crypto, START_OF_TIME, events), u)|
    ensures var w := Run(crypto, START_OF_TIME, events);
            var h := Hist(w, u);
            var verified := Chain(
              crypto, w.tables.rotations, ToUpper(TrimSpace(h[d].fp)), ToUpper(TrimSpace(Last(h).fp)),
              MAX_ROTATION_HOPS);
            && (verified <==> Hops(h, d) <= 15)
            && (|KeysFrom(h, 0)| <= 16 ==> verified)
  {
    hide Inv, HexFingerprints, Run, AllowedRun, Chain, TrimSpace, ToUpper, Hops;
    InitiallyHolds(crypto);
    RunKeeps(crypto, START_OF_TIME, events);
    var w := Run(crypto, START_OF_TIME, events);
    var h := Hist(w, u);
    HeldKeysAreFingerprints(crypto, w, u, d);
    HeldKeysAreFingerprints(crypto, w, u, |h| - 1);
    WalkTakesHops(crypto, w, u, d, MAX_ROTATION_HOPS);
    HopsBelowKeys(h, d);
    SubsetSize(KeysFrom(h, d), KeysFrom(h, 0));
  }

  lemma HeldKeysAreFingerprints(crypto: Crypto, w: World, u: string, d: nat)
    requires Inv(crypto, w) && d < |Hist(w, u)|
    ensures ToUpper(TrimSpace(Hist(w, u)[d].fp)) == Hist(w, u)[d].fp
  {
    hide RowsInv, HistInv;
    var fp, keys := Hist(w, u)[d].fp, w.tables.keys;
    assert Owned(keys, u, Hist(w, u)[d].fp);
    var i :| 0 <= i < |keys| && keys[i].userId == u && keys[i].fingerprint == fp;
    assert GoodKey(crypto, keys[i]);
    TrimOfFingerprint(fp);
    UpperOfFingerprint(fp);
  }

  lemma TrimOfFingerprint(fp: string)
    requires IsFingerprint(fp)
    ensures TrimSpace(fp) == fp
  {
    assert fp != "" ==> IsUpperHex(fp[0]) && IsUpperHex(fp[|fp| - 1]);
  }

  /** The bound is tight: a user who never returned to a key is verified from the first to the last if and only if
    * there were at most sixteen. */
  lemma SeventeenKeysAreTooMany(crypto: Crypto, events: seq<Event>, u: string)
    requires HexFingerprints(crypto) && AllowedRun(crypto, START_OF_TIME, events)
    requires var h := Hist(Run(crypto, START_OF_TIME, events), u);
             h != [] && forall i, j :: 0 <= i < j < |h| ==> h[i].fp != h[j].fp
    ensures var w := Run(crypto, START_OF_TIME, events);
            var h := Hist(w, u);
            Chain(crypto, w.tables.rotations, h[0].fp, Last(h).fp, MAX_ROTATION_HOPS) <==> |h| <= 16
  {
    hide Inv, HexFingerprints, Run, AllowedRun, Chain;
    InitiallyHolds(crypto);
    RunKeeps(crypto, START_OF_TIME, events);
    var w := Run(crypto, START_OF_TIME, events);
    StraightHops(Hist(w, u), 0);
    WalkTakesHops(crypto, w, u, 0, MAX_ROTATION_HOPS);
  }

  /** The user's active key is the latest one of the history, and the only active one. */
  lemma OneActiveKey(crypto: Crypto, events: seq<Event>, u: string)
    requires HexFingerprints(crypto) && AllowedRun(crypto, START_OF_TIME, events)
    ensures var w := Run(crypto, START_OF_TIME, events);
            var keys := w.tables.keys;
            && (FindActive(keys, u).Some? <==> Hist(w, u) != [])
            && forall i :: 0 <= i < |keys| && keys[i].userId == u && keys[i].active ==>
                 Hist(w, u) != [] && keys[i].fingerprint == Last(Hist(w, u)).fp && FindActive(keys, u) == Some(i)
  {
    hide HexFingerprints, AllowedRun, Run, RowsInv, HistInv, FindActive;
    InitiallyHolds(crypto);
    RunKeeps(crypto, START_OF_TIME, events);
    var w := Run(crypto, START_OF_TIME, events);
    var keys := w.tables.keys;
    if FindActive(keys, u).None? {
      NoActiveMeansNoHistory(crypto, w, u);
    } else {
      ActiveIsLatest(crypto, w, u);
    }
    forall i | 0 <= i < |keys| && keys[i].userId == u && keys[i].active
      ensures Hist(w, u) != [] && keys[i].fingerprint == Last(Hist(w, u)).fp && FindActive(keys, u) == Some(i)
    {
      assert KeyMatches(keys[i], Hist(w, keys[i].userId));
      ActiveFound(keys, u, i);
    }
  }

  lemma ActiveFound(keys: seq<KeyRow>, u: string, i: nat)
    requires i < |keys| && keys[i].userId == u && keys[i].active
    ensures FindActive(keys, u).Some?
  {}

  /** Rotating leaves the user with an active key exactly when nobody else is registered with the new one. */
  lemma RotationNeedsAnUnsharedKey(
    crypto: Crypto, t: Tables, now: int, user: string, address: string, req: RotateRequest)
    requires UniqueKeys(t.keys) && RotateKey(crypto, t, now, user, address, req).1 == Created
    ensures FindActive(RotateKey(crypto, t, now, user, address, req).0.keys, user).Some?
        <==> NotShared(t.keys, user, ParsedFp(crypto, req.newArmored))
  {
    hide Statement, Recorded;
    var fp := ParsedFp(crypto, req.newArmored);
    var off := Deactivated(t.keys, user);
    var keys' := Activated(off, user, fp, req.newArmored);
    assert RotateKey(crypto, t, now, user, address, req).0.keys == keys';
    match FindKey(off, fp)
    case Some(j) =>
      assert off[j].fingerprint == t.keys[j].fingerprint == fp && keys'[j].active;
    case None =>
      assert forall i :: 0 <= i < |t.keys| ==> off[i].fingerprint == t.keys[i].fingerprint;
      assert keys'[|off|] == KeyRow(user, fp, req.newArmored, true);
  }

  // ---------------------------------------------------------------- challenges

  ghost predicate Spent(w: World, id: string) {
    id in w.tables.challenges && w.tables.challenges[id].used
  }

  lemma {:induction false} SpentStaysSpent(crypto: Crypto, w: World, events: seq<Event>, id: string)
    requires AllowedRun(crypto, w, events) && Spent(w, id)
    ensures Spent(Run(crypto, w, events), id)
    decreases |events|
  {
    if events != [] {
      SpentStaysSpent(crypto, Step(crypto, w, events[0]), events[1..], id);
    }
  }

  /** A challenge that once got as far as a signature check, successful or not, is refused ever after. */
  lemma ReplayIsRefused(crypto: Crypto, w: World, first: Event, between: seq<Event>, again: Event)
    requires first.Rotate? && again.Rotate? && first.req.challengeId == again.req.challengeId
    requires AllowedRun(crypto, w, [first] + between)
    requires RotateKey(crypto, w.tables, first.at, first.user, first.address, first.req).1
             in {Created, InvalidSignature}
    ensures var t := Run(crypto, w, [first] + between).tables;
            var (t', reply) := RotateKey(crypto, t, again.at, again.user, again.address, again.req);
            t' == t && reply !in {Created, InvalidSignature}
  {
    var all := [first] + between;
    assert all[0] == first && all[1..] == between;
    assert Spent(Step(crypto, w, first), first.req.challengeId);
    SpentStaysSpent(crypto, Step(crypto, w, first), between, first.req.challengeId);
  }
}
